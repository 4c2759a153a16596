# Verified model of the EwokOS machine support

This project models the parts of the EwokOS machine repository whose correctness spans many operations,
and proves what they promise. Most of it is the Q8B (SC8280XP) board: the NPU transport with its DMA
ownership, page tables and shared-memory rings, the boot memory planner, the network loader and the image
and wire codecs. The Raspberry Pi sector caches complete it. Nothing was executed; every statement below is
proved by Dafny.

| file | models |
|---|---|
| `Smmu.dfy` | the three-level page tables of the NPU's SMMU, in physical memory, with a TLB that may cache any live entry until a completed sync |
| `FastRpcWire.dfy`, `SubmitCheck.dfy` | packet decoding, the pointer and page-window check, and the argument loop of a submit |
| `Ownership.dfy` | mapping records, pins and requests in flight, as laws about their tables |
| `Backing.dfy` | which records have translations behind them, and how session, records and translation agree |
| `NpuTransport.dfy` | the syscall door: PAS lifecycle, session, map and unmap, submit and poll, stop, dump |
| `GlinkRing.dfy`, `GlinkMessage.dfy`, `GlinkExchange.dfy`, `GlinkIntent.dfy` | the GLINK byte ring, message fragmentation, both ends on one ring, and intent credits |
| `MemoryPool.dfy`, `BootMemory.dfy` | pool search, pool reservation and heap carving |
| `Tftp.dfy` | the windowed TFTP client over an unreliable network |
| `MdtLoad.dfy`, `QrtrWire.dfy`, `Csd.dfy`, `PeImage.dfy` | firmware staging, QRTR and QMI messages, the SD register, the ELF to PE converter |
| `SectorCache.dfy` | the read-ahead cache of the raspi5 and raspix SD drivers |
| `Bytes.dfy`, `Options.dfy` | little-endian words, optional values |

The DSP, the secure monitor, MMIO, the TLB, the allocators, the CPU's own mappings, the card and the network are
the environment. Each of their answers is a parameter of the operation that asks, so a contract holds for every
way they may answer. Histories that the code does not keep (who was granted what, which context belongs to which
boot, what was produced on a ring, which record has no pages) are ghost state tied to the real fields by `Valid()`
and `Consistent()`. Whole-run statements are the `Run` methods: they take any sequence of operations with any
environment.

Run `dafny verify dfyconfig.toml` to check everything.

## Results that differ from what one might expect

- `glink_send_data` alone, on a message of more than one chunk (8192 bytes) that stops after its first chunk, leaves
  the intent marked available: `GlinkIntent.BrokenSendReusesIntent` is the case and `GlinkIntent.FrugalIffOneChunk`
  the exact condition (one chunk, or a second unused grant). The driver is not affected. Its one caller sends a
  40-byte header, and `GlinkIntent.Drive` proves that on every run begun messages stay within grants on both channels.
- A FastRPC channel that is opened again keeps its intent and forgets the intent's number, so the next message names
  intent 0. `GlinkIntent.ReopenForgetsIntent` is the case; `GlinkIntent.Endpoint.SendData` has the exact condition.
- The TFTP client decodes an announced transfer size in 32 bits. `Tftp.OversizedFileStopsEarly` runs the client on a
  file that is reported complete too early; `Tftp.Client.Run` has the exact condition: completion means the whole
  file if and only if the server acknowledged no size, or a size below 2^32, or a multiple of 2^32. The server may
  acknowledge any of the options, in any order, or none.
- Overlapping descriptors hand the same address to the heap once for each of them: `HeapRanges` counts this and
  `BootMemory.RepeatedDescriptor` is a case.
- A memory pool that is not placed yet is excluded at address zero, so free places below its size are passed over.
  `BootMemory.UnplacedPoolHidesPlace` is a case; `BootMemory.Planner.LowestIff` has the exact condition, which holds
  whenever the window starts above both pool sizes.
- Address 0 doubles as "no pool found": `MemoryPool.PlaceAtZero` is a case and `MemoryPool.FindPool` has the condition.
- A page window that is owned only through its DSP address is not in the saved mask of a request
  (`SubmitCheck.PageWindowHeldIff`, with `SubmitCheck.DspOnlyWindow` as a case); host-pointer packets always have
  theirs there.
- The DSP branch of `npu_frpc_iova_owned` adds in 64 bits and wraps, so a window that runs past the top is accepted
  although it lies in no record: `SubmitCheck.DspWraps` is the case. `SubmitCheck.OwnedExactly` has the exact condition:
  with records that do not wrap, acceptance means containment if and only if the window does not wrap.
  `SubmitCheck.CheckPacket` says it of packets; host-pointer packets always lie in their records.
- An unmap that fails after clearing the pages, because the TLB sync or the unpin failed, keeps the record. A later
  MMAP of the same buffer succeeds with an address that translates nothing:
  `NpuTransport.Transport.RemapAfterFailedSync` is the case. `NpuTransport.Transport.Mmap` has the exact condition:
  a returned window is translated whole if and only if its record is not marked in `unbacked`. `Run` proves who marks:
  an MUNMAP of its address that returned FAILED, or an MMAP of its buffer that did, which also latches recovery.
- The converter writes a shorter file when the ELF file lacks some of a section's bytes; `PeImage.Convert`
  states this as an equivalence and `PeImage.TruncatedElf` is a case.

## Model

| member | source | states |
|---|---|---|
| Smmu.EntryRoundTrip | q8b/kernel/bsp/npu_smmu.c:191 | a descriptor built from a frame and attribute bits is valid and yields the frame back, for every frame of the 48-bit space |
| Smmu.Tables.WalkIsFlat | q8b/kernel/bsp/npu_smmu.c:283-308 | the three-level tree in memory refines the flat page map: the hardware walk of any page of the 39-bit space gives exactly what the map says, and nothing above 4 GiB |
| Smmu.Tables.AllocTable | q8b/kernel/bsp/npu_smmu.c:239-269 | a new table is a free frame within reach, cleared and owned by nobody else; a refusal changes nothing and does not happen while every free frame is in reach and the CPU can map it |
| Smmu.Tables.FindL3 | q8b/kernel/bsp/npu_smmu.c:283-308 | looking up or creating a leaf table changes no translation, moves no existing table and takes at most two frames; without create nothing changes; with two free frames in reach that the CPU can map it succeeds |
| Smmu.Tables.PublishRange | q8b/kernel/bsp/npu_smmu.c:448-466 | the map loop adds the whole range or, rolling back, leaves the translation as it was; the TLB gains at most the range's own entries |
| Smmu.Tables.Map | q8b/kernel/bsp/npu_smmu.c:440-485 | success adds exactly [iova, iova+size) to pa and leaves the TLB equal to the live map; any failure leaves the translation as it was; refused arguments change nothing; with tables in place, or frames in reach that the CPU can map to make them, success is exactly characterised |
| Smmu.Tables.RangeMapped | q8b/kernel/bsp/npu_smmu.c:494-501 | the validation loop answers whether every page of the range is mapped, and changes nothing |
| Smmu.Tables.ClearRange | q8b/kernel/bsp/npu_smmu.c:502-509 | clearing removes exactly the range from the translation and touches no table or TLB entry |
| Smmu.Tables.Unmap | q8b/kernel/bsp/npu_smmu.c:486-513 | accepted exactly when every page is mapped; then exactly the range is removed, and stale TLB entries go only if the sync completes; a rejected call changes nothing |
| Smmu.Tables.FreeTables | q8b/kernel/bsp/npu_smmu.c:544-549 | stopping returns every table frame: the free set is the whole pool again |
| Smmu.Tables.Stop | q8b/kernel/bsp/npu_smmu.c:527-552 | success empties map and TLB and returns every frame; a failed hardware step keeps tables, map and TLB as they were |
| Smmu.Tables.Enable | q8b/kernel/bsp/npu_smmu.c:310-436 | enabling adds no translation, is idempotent, never reports success without a root table, and succeeds when the hardware does and free frames are in reach and the CPU can map them |
| FastRpcWire.RoundedWindowIsClosure | q8b/include/q8b_fastrpc_wire.h:42-46 | the rounded page window is the exact set of pages the bytes touch |
| FastRpcWire.ClosureIsUnique | q8b/include/q8b_fastrpc_wire.h:42-46 | no other window is that page closure |
| FastRpcWire.BufferMatchesExactly | q8b/include/q8b_fastrpc_wire.h:30-47 | for all arguments the pointer check holds if and only if the mapping is page-aligned, the bytes lie inside it without 64-bit overflow, offsets agree within the page and the window is their exact page closure, which then lies inside the mapping |
| Ownership.PinsCount | q8b/kernel/bsp/npu_pas.c:1712-1743 | the pin multiset counts, for each buffer, exactly the used records that name it |
| Ownership.ExactlyOneOwner | q8b/kernel/bsp/npu_pas.c:1712-1881 | a page the device can reach lies in exactly one used record, which names the frame and holds a pin |
| Ownership.RecordAdded | q8b/kernel/bsp/npu_pas.c:1794-1805 | recording a pinned buffer above the cursor, before it is published, keeps ownership, disjointness and pin counts |
| Ownership.RecordReached | q8b/kernel/bsp/npu_pas.c:1806-1815 | publishing a recorded buffer keeps ownership, for any part of the range the device may have cached |
| Ownership.RecordRemoved | q8b/kernel/bsp/npu_pas.c:1853-1877 | removing a record keeps ownership once no reachable page lies in its range |
| Ownership.RetainedUpdate | q8b/kernel/bsp/npu_pas.c:1827-1860 | a record no request holds may change freely without disturbing a request in flight |
| Ownership.RetainedAccept | q8b/kernel/bsp/npu_pas.c:2139-2144 | accepting a request with its mask of used records keeps retention for it and for all others |
| Backing.BackedExactly | q8b/kernel/bsp/npu_pas.c:1753-1822 | a used record is translated whole if and only if it is not marked unbacked |
| Backing.BackedAdd | q8b/kernel/bsp/npu_pas.c:1794-1805 | a record starts out unbacked, and every other record stays as it was |
| Backing.BackedPublish | q8b/kernel/bsp/npu_pas.c:1806-1817 | publishing a record's pages backs it, and every other record stays as it was |
| Backing.BackedClear | q8b/kernel/bsp/npu_pas.c:1853-1867 | clearing a record's pages leaves every other record as it was |
| SubmitCheck.FindOwner | q8b/kernel/bsp/npu_pas.c:1883-1909 | the scan accepts exactly what the code's comparison does; an accepted window that does not run past 64 bits lies inside a used record of the session |
| SubmitCheck.DspCoversExactly | q8b/kernel/bsp/npu_pas.c:1903-1906 | the wrapping DSP comparison means containment exactly when the window's end does not wrap or the record's does too, and misses no contained window of a record whose end does not wrap |
| SubmitCheck.OwnedExactly | q8b/kernel/bsp/npu_pas.c:1883-1909 | with records that do not wrap, a window that does not wrap is accepted if and only if it lies inside a record of the session, and one that wraps lies in none |
| SubmitCheck.OwnedInside | q8b/kernel/bsp/npu_pas.c:1883-1909 | whatever the records, an accepted window that does not wrap lies inside one of the session |
| SubmitCheck.DspWraps | q8b/kernel/bsp/npu_pas.c:1903-1906 | a window that wraps is accepted as argument and as page window, lies in no record and has no mask bit |
| SubmitCheck.PacketInside | q8b/kernel/bsp/npu_pas.c:2039-2114 | every page window, and every argument range of a packet without host pointers, that does not wrap lies inside a record of the session |
| SubmitCheck.CheckArgs | q8b/kernel/bsp/npu_pas.c:2039-2114 | the argument loop accepts exactly when every argument is acceptable, and then returns the union of their masks |
| SubmitCheck.CheckPages | q8b/kernel/bsp/npu_pas.c:2053-2113 | one argument: accepted exactly when acceptable, with the mask of the records covering its page window |
| SubmitCheck.CollectMask | q8b/kernel/bsp/npu_pas.c:2084-2095 | the mask holds exactly the used records covering the page window |
| SubmitCheck.HostArgHeld | q8b/kernel/bsp/npu_pas.c:2039-2114 | a nonempty host-pointer argument is held by a record in its mask whose bytes it lies in, with the page window their exact closure |
| SubmitCheck.PageWindowHeldIff | q8b/kernel/bsp/npu_pas.c:1883-1909 | a page window is held by the mask if and only if a used record covers it as a device address |
| SubmitCheck.DspOnlyWindow | q8b/kernel/bsp/npu_pas.c:1903-1906 | a window owned as a DSP address only is accepted and held by no bit of the mask |
| SubmitCheck.PacketHoldsHostArgs | q8b/kernel/bsp/npu_pas.c:2039-2114 | every nonempty argument of an accepted host-pointer packet is matched to a record in the saved mask |
| SubmitCheck.CheckPacket | q8b/kernel/bsp/npu_pas.c:2009-2114 | a packet is accepted exactly when well formed with every argument passing the code's checks; it then has the saved mask of all its mappings, and its windows that do not wrap lie inside records of the session |
| SubmitCheck.MaskHolds | q8b/kernel/bsp/npu_pas.c:2009-2013 | the saved mask contains the payload's own record and only used records |
| NpuTransport.Transport.Mmap | q8b/kernel/bsp/npu_pas.c:1758-1822 | a repeated map only counts a reference; a new one adds exactly the range, one pin and one record at the cursor; a returned window is translated whole if and only if its record is not unbacked; a failed call leaves translation and cursor and either changes nothing or keeps pin and record, unbacked, and latches recovery; each result code has its cause, and with frames for its tables a new map succeeds exactly when the sync completes and the buffer is in reach |
| NpuTransport.Transport.MapRecorded | q8b/kernel/bsp/npu_pas.c:1806-1818 | the SMMU is called with pin and record in place: ownership holds before and after it, and the record is unbacked until it succeeds |
| NpuTransport.Transport.FindMapping | q8b/kernel/bsp/npu_pas.c:1747-1756 | the lookup returns the first matching record or none |
| NpuTransport.Transport.MapInFlight | q8b/kernel/bsp/npu_pas.c:1827-1834 | a record is in flight exactly when an accepted request's mask names it |
| NpuTransport.Transport.Munmap | q8b/kernel/bsp/npu_pas.c:1836-1881 | success drops one reference or, at the last, removes exactly the range, the pin and the record, never one in flight, and rewinds the cursor exactly when no record is left; a FAILED keeps record, pin and cursor and leaves the record unbacked, having cleared exactly its window if it was translated; each refusal has its exact cause |
| NpuTransport.Transport.Retire | q8b/kernel/bsp/npu_pas.c:1853-1877 | succeeds exactly when the window was mapped, the sync completes and the unpin is accepted; the translation, the unbacked mark and the latch after every outcome are stated |
| NpuTransport.Transport.UnmapWithoutSync | q8b/kernel/bsp/npu_pas.c:1853-1856 | an unmap whose sync fails keeps the record unchanged, latches nothing and leaves it unbacked |
| NpuTransport.Transport.RemapAfterFailedSync | q8b/kernel/bsp/npu_pas.c:1778-1790 | map, unmap with a failed sync, map again: the second map returns the first address and no page of it is translated |
| NpuTransport.Transport.BackedWindow | q8b/kernel/bsp/npu_pas.c:1758-1881 | while the SMMU is ready, latched or not, the hardware walk of every page of a used record gives the record's frame, or nothing if the record is unbacked |
| NpuTransport.Transport.ReleaseMaps | q8b/kernel/bsp/npu_pas.c:1727-1743 | every record is released except those whose unpin fails; only a complete release rewinds the cursor, an incomplete one latches recovery |
| NpuTransport.Transport.Close | q8b/kernel/bsp/npu_pas.c:2376-2385 | succeeds exactly for an argument equal to the session (0 when there is none) with nothing pending, a stopped SMMU and every unpin accepted; success leaves no record, no pin and nothing the device can reach |
| NpuTransport.Transport.HandleResponse | q8b/kernel/bsp/npu_pas.c:1144-1170 | a response completes the one request with its context and no other; one from an earlier boot completes none |
| NpuTransport.Transport.RefreshState | q8b/kernel/bsp/npu_pas.c:447-461 | a pending watchdog line while armed trips it for good and latches recovery |
| NpuTransport.Transport.WatchdogPrepare | q8b/include/q8b_npu_watchdog.h:28-41 | arming succeeds only with a readable, quiet line and no earlier trip; every refusal latches recovery |
| NpuTransport.Transport.IssueContext | q8b/include/q8b_fastrpc_wire.h:49-58 | a context is never issued twice over all boots, and exhaustion is refused |
| NpuTransport.Transport.FindSlot | q8b/kernel/bsp/npu_pas.c:1990-1995 | a payload address already pending is refused, and a slot is free |
| NpuTransport.Transport.SubmitPacket | q8b/kernel/bsp/npu_pas.c:1999-2155 | acceptance, exactly when packet, ownership, counter and send allow it, records a fresh context with the mask of every mapping the packet uses |
| NpuTransport.Transport.Submit | q8b/kernel/bsp/npu_pas.c:1970-2155 | a submit disturbs no other request, is accepted exactly under its stated conditions, and an accepted one is retained with the ownership table of that moment |
| NpuTransport.Transport.MessageInside | q8b/kernel/bsp/npu_pas.c:2135-2138 | the window of the message handed to the DSP never wraps, so an accepted one lies inside a record |
| NpuTransport.Transport.RecordDspMmap | q8b/kernel/bsp/npu_pas.c:1911-1933 | a map reply sets at most one record's DSP address, and the invariant that no two used records share a nonzero one is kept |
| NpuTransport.Transport.ReleaseDspMmap | q8b/kernel/bsp/npu_pas.c:1935-1968 | an unmap reply clears at most the matching record's DSP address |
| NpuTransport.Transport.Poll | q8b/kernel/bsp/npu_pas.c:2157-2188 | answers by the named request as the delivered responses leave it: consumed exactly if complete, only its slot is cleared, and records change at most their DSP address |
| NpuTransport.Transport.NoteIncomplete | q8b/kernel/bsp/npu_pas.c:2500-2509 | recovery is latched exactly if some request other than the listener's has not completed |
| NpuTransport.Transport.PasInit | q8b/kernel/bsp/npu_pas.c:2423-2437 | succeeds exactly when prepared and called successfully, counts the call, and withdraws the dump before it |
| NpuTransport.Transport.PasMem | q8b/kernel/bsp/npu_pas.c:2439-2449 | refused exactly without a preceding init or with bad arguments; otherwise the call is counted and success marks the step |
| NpuTransport.Transport.PasAuth | q8b/kernel/bsp/npu_pas.c:2457-2471 | succeeds exactly after the mem step with a healthy, ready DSP; a failure after the call latches recovery; pending requests survive |
| NpuTransport.Transport.PasBoot | q8b/kernel/bsp/npu_pas.c:1534-1675 | succeeds exactly when every stage does; a boot that makes any PAS call has withdrawn the dump and was not booted before |
| NpuTransport.Transport.PasStop | q8b/kernel/bsp/npu_pas.c:2485-2561 | a failed secure shutdown keeps records, pins, session and requests; a successful one ends the boot epoch with nothing pending; complete success, exactly characterised, leaves nothing reachable or pinned; on a booted DSP recovery is latched exactly by an earlier latch, a fault seen at any look, a missing acknowledgement, an unfinished request or a failed teardown |
| NpuTransport.Transport.Session | q8b/kernel/bsp/npu_pas.c:2344-2374 | success is decided from the state before: no session, the compute SID, a booted DSP, a watchdog quiet at both looks, a channel open or opened by the ping, an intent, and an SMMU that can be enabled, which it can if the register steps succeed and a table frame is in reach; it adds no translation |
| NpuTransport.Transport.SmmuCheck | q8b/kernel/bsp/npu_pas.c:2336-2342 | refused while booted or in session; otherwise map and TLB are empty after it, or unchanged when the hardware does not confirm the stop |
| NpuTransport.Transport.DumpRead | q8b/kernel/bsp/npu_pas.c:2300-2319 | a dump is served only after a shutdown with no PAS call since, for page-aligned ranges inside the carveout |
| NpuTransport.Transport.Control | q8b/kernel/bsp/npu_pas.c:2231-2565 | one syscall in any reachable state with any environment keeps the invariants, never drops an accepted request except by POLL or shutdown, changes no unbacked mark of a record in flight, marks a record only by an unmap of its address or a mapping of its buffer that returned FAILED, and refuses restarts once recovery is latched |
| NpuTransport.Transport.DeviceReachIsOwned | q8b/kernel/bsp/npu_pas.c:1712-1881 | in every valid state whatever the page walk or TLB yields lies in exactly one used, pinned record naming that frame |
| NpuTransport.Transport.Run | q8b/kernel/bsp/npu_pas.c:2231-2565 | every run of syscalls keeps the invariants; once latched no run makes a PAS call; contexts keep their epoch and snapshot for ever; a request in flight before the run is in flight after it, with its windows, each page of which the hardware walks as before, unless a POLL named its payload or a shutdown succeeded; a record is unbacked only if it was, or some call of the run returned FAILED on its address or buffer |
| GlinkRing.RingAdd | q8b/kernel/bsp/npu_pas.c:905-909 | addition on the ring is addition modulo its length, for any number of laps |
| GlinkRing.Ring.UsedIsUnread | q8b/kernel/bsp/npu_pas.c:911-913 | the used count is the length of the unread queue and a full ring never looks empty |
| GlinkRing.Ring.Copy | q8b/kernel/bsp/npu_pas.c:915-921 | copying out follows the ring around its end |
| GlinkRing.Ring.Write | q8b/kernel/bsp/npu_pas.c:923-929 | writing touches exactly the cells from pos on, around the end |
| GlinkRing.Ring.TxFrame | q8b/kernel/bsp/npu_pas.c:939-976 | a frame is accepted exactly when it fits with the reserve, and then appends its zero-padded bytes to the queue; a refusal writes nothing |
| GlinkRing.Ring.TxDataFrame | q8b/kernel/bsp/npu_pas.c:978-1014 | the same for data frames |
| GlinkRing.Ring.RunTx | q8b/kernel/bsp/npu_pas.c:905-1014 | for every interleaving of frames and consumer advances the bytes produced are the concatenation of the accepted padded frames and no unread byte is overwritten |
| GlinkMessage.SendChunks | q8b/kernel/bsp/npu_pas.c:1402-1436 | the sender emits a prefix of the message's frames, all of them exactly when it succeeds, whatever the consumer does meanwhile |
| GlinkMessage.ChunkReceived | q8b/kernel/bsp/npu_pas.c:1109-1178 | one chunk appends its bytes and completes the message exactly when it is the last |
| GlinkMessage.MessageRoundTrip | q8b/kernel/bsp/npu_pas.c:1109-1178 | a message of 1 to 16384 bytes is rebuilt exactly once, at its last chunk, and the receiver is ready for what follows |
| GlinkMessage.Receiver.HandleRxData | q8b/kernel/bsp/npu_pas.c:1109-1178 | the in-place receiver takes, waits or refuses as the step function says |
| GlinkMessage.Receiver.PollPass | q8b/kernel/bsp/npu_pas.c:1180-1347 | one pass moves the tail by whole words and never past the head, however the frames are formed; a data frame is taken, awaited or refused as the step function says |
| GlinkExchange.OneMore | q8b/kernel/bsp/npu_pas.c:1421-1429 | one more chunk in flight extends frames, reassembly and completed messages by exactly itself |
| GlinkExchange.Front | q8b/kernel/bsp/npu_pas.c:1109-1178 | the first frame in flight is the one the receiver takes, and the rest stays |
| GlinkExchange.Exchange | q8b/kernel/bsp/npu_pas.c:1109-1436 | for every interleaving of sender and poll loop on one ring, what is delivered is in order what was sent whole, lagging by the frames in flight; with the ring read empty and no message under way everything sent has been delivered exactly once |
| GlinkIntent.BestIntent | q8b/kernel/bsp/npu_pas.c:1266-1280 | the first of the largest offered intents is chosen |
| GlinkIntent.Endpoint.Receive | q8b/kernel/bsp/npu_pas.c:1204-1321 | grants come only from INTENT frames and matching RX_DONE frames, per channel, with the size and number granted; INTENT frames of another channel or without size change nothing; available and awaiting-done are never both set |
| GlinkIntent.Endpoint.SendData | q8b/kernel/bsp/npu_pas.c:1402-1436 | a message goes out only within the granted size, completes exactly if the ring takes every chunk, then uses up one grant, and names the granted intent if and only if the channel was not opened again since |
| GlinkIntent.Endpoint.SendQrtr | q8b/kernel/bsp/npu_pas.c:1093-1107 | a QRTR message uses its intent exactly when the ring accepts it |
| GlinkIntent.Endpoint.Run | q8b/kernel/bsp/npu_pas.c:1045-1436 | over every run completed messages never exceed grants on either channel; begun ones do not either while messages fit one chunk |
| GlinkIntent.Drive | q8b/kernel/bsp/npu_pas.c:2139-2144 | with the message the driver really sends, begun and completed messages stay within grants on both channels over every run, without side condition |
| GlinkIntent.ReopenForgetsIntent | q8b/kernel/bsp/npu_pas.c:1224-1230 | after a second OPEN the next message goes out naming intent 0 instead of the granted one |
| GlinkIntent.BrokenSendReusesIntent | q8b/kernel/bsp/npu_pas.c:1421-1435 | of the function alone, for a message larger than its caller sends: a send that stops after its first chunk leaves the intent available, and two messages begin on one grant |
| GlinkIntent.FrugalIffOneChunk | q8b/kernel/bsp/npu_pas.c:1421-1435 | begun messages stay within grants for every ring behaviour if and only if the message fits one chunk or a second grant is unused |
| MemoryPool.Extend | q8b/kernel/bsp/memory_pool.h:9-21 | the fixed point joins unordered descriptors: everything up to the end is usable RAM and the end is not |
| MemoryPool.Blocked | q8b/kernel/bsp/memory_pool.h:36-41 | the exclusion scan stays exactly when nothing overlaps and otherwise moves to the end of one that does |
| MemoryPool.Candidate | q8b/kernel/bsp/memory_pool.h:26-46 | the candidate is the lowest aligned address in the window clear of every exclusion, or zero if there is none |
| MemoryPool.FindPool | q8b/kernel/bsp/hw_info_arch.c:257-282 | the result is the lowest aligned address whose bytes are all usable RAM inside the window and outside every exclusion, and zero exactly when none exists, if and only if address zero is no such place |
| MemoryPool.PlaceAtZero | q8b/kernel/bsp/hw_info_arch.c:257-282 | a window from address zero with one page of RAM: the search reports none |
| BootMemory.Exclusions | q8b/kernel/bsp/hw_info_arch.c:202-232 | the array holds every nonempty region, saturated; none is dropped by the cap while the reservations fit their table |
| BootMemory.SortByBase | q8b/kernel/bsp/hw_info_arch.c:318-327 | the insertion sort orders the array by base and permutes it |
| BootMemory.Carve | q8b/kernel/bsp/hw_info_arch.c:355-365 | the cursor loop hands out every address of the range outside the exclusions once, and no other |
| BootMemory.KallocRangeAgrees | q8b/kernel/bsp/hw_info_arch.c:336-346 | the heap loop and the pool search agree on which descriptors are usable and how far they reach |
| BootMemory.CarveDescriptor | q8b/kernel/bsp/hw_info_arch.c:336-365 | one descriptor hands out its usable addresses in the window minus the exclusions |
| BootMemory.Planner.ReservePools | q8b/kernel/bsp/hw_info_arch.c:284-307 | each pool is the lowest place clear of boot regions, reservations and the placed pool among those not below the size of a pool still unplaced; failure means there is no such place; the pools do not overlap |
| BootMemory.Planner.PlaceIsFree | q8b/kernel/bsp/hw_info_arch.c:214-215 | excluding an unplaced pool at address zero costs exactly the places below its size |
| BootMemory.Planner.LowestIff | q8b/kernel/bsp/hw_info_arch.c:284-307 | a pool is the lowest place of all if and only if no free place lies below the unplaced sizes; a window that starts above them is enough |
| BootMemory.UnplacedPoolHidesPlace | q8b/kernel/bsp/hw_info_arch.c:295-298 | a free place below the DMA pool's own size is passed over |
| BootMemory.Planner.HeapRanges | q8b/kernel/bsp/hw_info_arch.c:310-367 | an address is handed to the heap once per usable descriptor covering it if allocable, and never otherwise |
| BootMemory.Planner.HeapMissesPool | q8b/kernel/bsp/hw_info_arch.c:284-367 | no heap address lies in the DMA or SHM pool and every one is RAM |
| BootMemory.RepeatedDescriptor | q8b/kernel/bsp/hw_info_arch.c:336-365 | two descriptors of one page hand it to the heap twice |
| Tftp.ParseOack | q8b/efi/main.c:1240-1262 | the in-place option scan computes the option parser, unterminated strings included |
| Tftp.ParseEncoded | q8b/efi/main.c:1240-1262 | parsing any encoded option list applies the options in order, whatever follows in the buffer |
| Tftp.DecDecimal | q8b/efi/main.c:1075-1080 | decoding a decimal numeral gives its value modulo 2^32 |
| Tftp.OackRoundTrip | q8b/efi/main.c:1240-1262 | an OACK that acknowledges any options, in any order, is decoded to the acknowledged block size, window and transfer size modulo 2^32, and the defaults for the others |
| Tftp.Client.Handle | q8b/efi/main.c:1213-1305 | one turn: only the expected block is stored, at its place, with the acknowledgements of section 4 of RFC 7440; failure, retry and OACK turns exactly as the loop has them; nothing is written past max_size |
| Tftp.ExpectedIsNext | q8b/efi/main.c:1270-1277 | of all packets less than 65536 blocks stale only the next block carries the expected number |
| Tftp.Client.Step | q8b/efi/main.c:1213-1305 | a turn keeps the buffer a prefix of the file; completion means the whole file if and only if no size was announced or it survives 32 bits |
| Tftp.Client.Run | q8b/efi/main.c:1200-1306 | over any loss, duplication and reordering the buffer is a prefix of the file, the last acknowledgement is the stored count modulo 65536, completion yields the whole file if and only if no size was announced or it survives 32 bits, and nothing past max_size changes |
| Tftp.CompletesWhole | q8b/efi/main.c:1289-1305 | the end test fires at the end of the file, and earlier exactly when an announced size was cut short by its decoding |
| Tftp.OversizedFileStopsEarly | q8b/efi/main.c:1289-1305 | the client, fed the OACK of any server that announces the size and the first block of a file of 2^32 + 1 bytes, reports completion after that block |
| MdtLoad.ValidateLoads | q8b/include/q8b_mdt_load.h:18-33 | accepted exactly when some segment is loadable and all loadable ones fit file and carveout |
| MdtLoad.Stage | q8b/include/q8b_mdt_load.h:37-53 | on success every carveout byte is that of the last loadable segment covering it, or unchanged; on failure no byte changes |
| MdtLoad.LastSegmentWins | q8b/include/q8b_mdt_load.h:37-53 | file byte or BSS zero of the last covering segment, the old byte if none covers |
| MdtLoad.NoWrap | q8b/include/q8b_mdt_load.h:43-51 | indices of a validated segment stay in bounds without 32-bit wrap |
| QrtrWire.DecodedPayload | q8b/include/q8b_qrtr_wire.h:40-46 | a decoded packet's data is exactly the announced size padded to a word |
| QrtrWire.ShutdownRequest | q8b/include/q8b_qrtr_wire.h:54-61 | the buffer holds the request's header words and QMI header, padding zeroed |
| QrtrWire.RequestRoundTrip | q8b/include/q8b_qrtr_wire.h:19-61 | decoding an encoded request recovers all its fields for every node, port and transaction; only port 0xffff is remapped |
| QrtrWire.TilingPrefix | q8b/include/q8b_qrtr_wire.h:72-87 | TLV tilings are prefix-free, so a payload has at most one |
| QrtrWire.ScanResult | q8b/include/q8b_qrtr_wire.h:72-88 | the status of the only result TLV of a payload tiled by TLVs, 0 exactly for four zero bytes, and -1 for any other payload |
| QrtrWire.ShutdownResult | q8b/include/q8b_qrtr_wire.h:64-90 | matches exactly the reply to the request; success exactly when the length agrees and the TLVs tile the payload with one zero result |
| SectorCache.Cache.Direct | raspix/kernel/bsp/sd.c:39-50 | a direct read succeeds exactly when the card moves all sectors and then holds them; other bytes are untouched |
| SectorCache.Cache.Fill | raspi5/kernel/bsp/sd.c:54-78 | a fill either mirrors the whole window or leaves the cache invalid |
| SectorCache.Cache.ReadCached | raspi5/kernel/bsp/sd.c:80-103 | a read succeeds exactly by hit, fill or fallback, returns the addressed sector, and keeps the cache a mirror of the card |
| SectorCache.Cache.WindowFollowsRun | raspi5/kernel/bsp/sd.c:35-41 | the large window opens exactly after five consecutive cached sectors, and a window contains its sector |
| SectorCache.MirroredAt | raspix/kernel/bsp/sd.c:84-91 | a cached sector's index lies inside the buffer and holds the sector |
| SectorCache.Cache.ReadMany | raspi5/kernel/bsp/sd.c:129-140 | a bulk read returns the addressed sectors, and succeeds whenever every single fallback would |
| SectorCache.Cache.Run | raspi5/kernel/bsp/sd.c:28-140 | over every sequence of resets, single and bulk reads, failed fills and failed allocations, every successful read returns the card's sectors |
| Csd.OrIsSum | q8b/kernel/bsp/sd.c:616-621 | or-ing into clear low bits is addition |
| Csd.AndIsMod | q8b/kernel/bsp/sd.c:627-632 | masking with n ones is the remainder modulo 2^n |
| Csd.Response136 | q8b/kernel/bsp/sd.c:612-621 | the in-place shift makes the register its value times 256 modulo 2^128 |
| Csd.UnstuffIsField | q8b/kernel/bsp/sd.c:623-633 | bit extraction is (value >> start) mod 2^size for every start and size in range |
| Csd.CapacityIsSpecified | q8b/kernel/bsp/sd.c:635-653 | the sector count is the specified capacity divided by 512 for every register value, without overflow |
| PeImage.ReadElf | q8b/efi/mkpefi.py:23-40 | the result is the one set of contents the file describes (header, section table, names up to their zero), and none exactly if it describes none |
| PeImage.Make | q8b/efi/mkpefi.py:23-164 | from the bytes of the ELF file: refused exactly if it does not parse or its loadable sections are not accepted; otherwise a PE loader finds, at every address of every loadable section, the byte the ELF file has there |
| PeImage.Select | q8b/efi/mkpefi.py:48-57 | the kept sections are exactly the loadable ones, each as often as it occurs, in address order, and in input order at equal addresses |
| PeImage.Layout | q8b/efi/mkpefi.py:80-87 | the layout loop packs raw data in order and finds the image's end |
| PeImage.RawRanges | q8b/efi/mkpefi.py:77-91 | raw ranges are file-aligned, at or beyond the headers, and disjoint |
| PeImage.WriteHeaders | q8b/efi/mkpefi.py:98-132 | every header field stands at its offset |
| PeImage.WriteRow | q8b/efi/mkpefi.py:135-162 | one section: its table row and bytes are in place, earlier ones survive, and the file keeps its planned length only if the bytes are all there |
| PeImage.Convert | q8b/efi/mkpefi.py:42-164 | a file results exactly for accepted input; headers and table are always complete, and the data follows the plan if and only if the ELF file holds every section's bytes; a loader then accepts the file and finds the ELF image in it |
| PeImage.TruncatedElf | q8b/efi/mkpefi.py:158-162 | an ELF file that ends inside a section is accepted and the output misses bytes |
| PeImage.HeadersRead | q8b/efi/mkpefi.py:103-132 | a loader reads back what was planned |
| PeImage.ConvertedLoads | q8b/efi/mkpefi.py:77-162 | a PE loader accepts every converted file: aligned raw ranges inside the file beyond SizeOfHeaders, aligned addresses inside the image |
| PeImage.RowInImage | q8b/efi/mkpefi.py:88-93 | every section lies inside the image and below .reloc, which overlaps none |
| PeImage.ImagePreserved | q8b/efi/mkpefi.py:48-162 | at every address of every loaded section the loader places the ELF byte, zero for NOBITS |
| PeImage.NothingElse | q8b/efi/mkpefi.py:88-162 | at any other address but the relocation block's the loader places the header byte of the file below SizeOfHeaders, and nothing beyond |

## Left out

- GlinkExchange.Exchange: one sender, one channel and data frames only; other frames between them are covered by PollPass.
- NpuTransport.Transport.PasStop: of the looks at the DSP inside a waiting loop only one is modelled, since a trip is latched and a later look adds nothing.
- GlinkMessage.Receiver.PollPass: requires a producer that publishes in multiples of 8; without it rounding a frame up could pass the head.
- Tftp.Client.Run: an acknowledged option names the value the server uses, and one that is not acknowledged keeps its default; packets are less than 65536 blocks stale and the server repeats one OACK; the source cannot tell an older block apart.
- Tftp.Client.constructor: buffers are below 2^35 bytes, so that the 32-bit block counter cannot wrap before the buffer is full.
- BootMemory.Planner.constructor: takes at most three boot regions besides the two pools, and a valid map with at most the reservations its table holds, as the boot information does.
- SectorCache.Cache.Run: signed sector arithmetic wraps at 32 bits; a card transfer that reports success delivers the addressed sectors.
- PeImage.Make: section names are bytes, and whether bytes.decode accepts one is an answer of the environment; range errors that Python raises while packing are one refusal before the output is written.
- q8b_frpc_inline_arg and q8b_frpc_decode_map_reply: the decoded reply is a parameter of POLL; they would only add field reads.
- The DSP-address branch of page-list ownership is modelled, but retention is stated for the SID and IOVA form that the mask records.
- SCM and SMC assembly, barriers, MMIO values, clocks, power and RPMh sequencing: outcomes of the environment.
- SMEM header repair, SMP2P field decoding, IPCC draining, GPU PAS phases, tick counters: small or fixed by firmware layout.
- Dump headers and watchdog snapshots: byte writes with no further property.
- The lego.ev3 and miyoo read-ahead: cache agreement is not an invariant there.
- UART, GPIO, SPI, LCD, framebuffer, interrupts, timers, start-up page tables, PCI inventory, boot image scripts: plumbing or fixed layouts.
- UEFI file loading, PXE and MTFTP wrappers, sending of the TFTP request: calls into firmware.
- Interrupts and concurrency inside one syscall: operations are taken one at a time, and responses arrive at their polling points.
