# Verified model of fgds

fgds moves file data straight between NVMe storage and GPU memory. A kernel module
maps GPU pages into a user process, `libfgds` turns byte ranges of registered GPU
buffers into `pread`/`pwrite` or io_uring requests on those mappings, a cache
backend publishes files written that way, and a safetensors reader loads model
files. This project models the parts where these steps have to add up and proves
what they add up to. `dafny verify dfyconfig.toml` checks all of it.

| files | part |
|---|---|
| `Layout`, `Registry`, `Registration`, `XferTable` | registering GPU buffers in 1 GiB segments, the list of registrations, the transfer table |
| `Kernel`, `Transfer`, `Batch`, `Tiling`, `Packing`, `Pipeline`, `Direct`, `Api`, `GpuAddress` | `fgds_read`, `fgds_write` and the asynchronous callback against a kernel that completes requests in any order |
| `RingProtocol`, `RingResidue`, `RingMemory` | any number of threads sharing one ring, as a state machine; what left-over entries do to it; the bytes concurrent calls move |
| `PageMap`, `EndToEnd` | the kernel module's page map, and from a registration to the GPU page behind each of its bytes |
| `DiyFp`, `Grisu`, `Dtoa`, `DecimalShift`, `Powers` | number kernels: rounded multiplication, shortest decimal output, exact division by powers of two |
| `Utf8`, `JsonString`, `Json`, `JsonGrammar`, `JsonPrint`, `Safetensors`, `SafetensorsIo`, `SafetensorsExact` | the safetensors header: string scanner, parser, grammar, printer, container |
| `Publish`, `PublishOrder` | the cache backend's publication protocol, with failures and crashes |
| `PciOrder` | the order in which GPUs are numbered |
| `Options`, `Sizes` | shared definitions |

Code that changes things step by step is modelled by methods and classes (the
linked list, the transfer loops, the page table, the scanner, the in-place digit
division and the sort); each is proved against a specification function or
predicate. Concurrency is modelled by state machines over the steps between lock
operations. What lies outside the code is nondeterministic: system calls may fail
at any time (`Process`), requests complete in any order with any outcome
(`Uring.Run`), and threads, writers and crashes interleave freely. Ghost counters
(`faults`, `errors`) record what failed, so that success and failure are stated
exactly.

## Where the code differs from what one would expect

Each of these is stated with the exact condition under which the expected property
holds.

- A window that runs past its registration is refused half way through filling a
  batch, and the entries prepared so far stay in the submission queue, although the
  comments say the ring is clean whenever the lock is free (`Pipeline.RingTransfer`,
  `RingResidue.ResidueSpoils`). Which windows do this is a condition on offset,
  length and end of the registration (`Packing.ResidueExact`,
  `Packing.OneBatchResidue`); for all others, in particular those inside their
  registration, `RingProtocol.RingSafety` holds.
- What the left-over entries do depends on the 256 slots of the queue. If the next
  call's entries fit beside them, it submits both and can return a count too high by
  the left-over bytes; if they do not fit, it runs out of slots and every run of it
  returns -1 (`RingResidue.LeftoversExact`). In that case the entries that did fit
  stay, the queue is full with the lock free, and every later ring call of every
  thread on the device returns -1 (`RingResidue.ExhaustJams`,
  `RingResidue.FullQueueJams`). The state is reachable (`RingResidue.JamReachable`).
- Offsets are counted from the start of the registration, not from the address the
  caller passes, so the bytes moved are those at that address plus the offset if and
  only if the address is the start (`GpuAddress.ReadStartExact`,
  `GpuAddress.WriteStartExact`); others are accepted (`GpuAddress.InteriorAccepted`).
- A registration that fails after some segments were bound unmaps them but does not
  unbind them in the kernel (`Registration.MapSegments`).
- The asynchronous callback adds error codes to its byte count, so the count is
  right exactly when no piece fails (`Direct.Callback`).
- Mapping a device page that the GPU driver left out returns the driver's code, so
  the call reports success without mapping anything exactly when that code is 0
  (`PageMap.MapInner`). The BAR check is exact if and only if the BAR holds at
  least one 64 KiB page (`PageMap.BarCheckExact`), and the page table is large
  enough except for lengths from 4 to 60 KiB (`PageMap.FillBounds`), where the fill
  loop runs off its end (`PageMap.MapInner`); the library never registers those.
- A MAP call that fails after collecting the page addresses frees their array and
  leaves its address in the buffer, and releasing the buffer frees it again. This is
  so exactly if a page fails the BAR check or cannot be inserted
  (`PageMap.MapThenRelease`).
- A saved tensor with a zero dimension cannot be loaded again, because the writer
  gives it data offsets and the reader refuses them (`Safetensors.RoundTrip`), and
  names are printed without escapes and numbers go through a double;
  `SafetensorsExact.RoundTripExact` has the whole condition. A header whose root is not an object loads as an empty value, exactly
  when its first octet behind blanks is not an opening brace (`Safetensors.HeaderlessLoads`).
- `validate_data_offsets` takes a tensor to have no data if it has eight dimensions,
  a zero dimension, or a size in bytes that is a multiple of 2^64, and compares sizes
  modulo 2^64, although reader and writer accept eight dimensions. It guarantees that
  the data lies inside the storage if and only if there are fewer than eight
  dimensions and the true size is neither 0 nor 2^64 or more
  (`SafetensorsIo.OffsetsCheckExact`).
- `contains` answers yes exactly for keys that were in memory when it looked, because
  `_read_metadata` returns nothing: an entry that is only on disk is listed, but
  answered no (`Publish.LookupsExact`, `Publish.DiskOnlyMisses`).
- `put_tasks` stays exact for a key if and only if no put of it is submitted while
  the key is in `put_tasks` (`Publish.PendingKeys`, `Publish.SubmitKeepsExact`,
  `Publish.DuplicateBreaks`).
- A key leaves `put_tasks` before its metadata writer ends, so a late writer can
  overwrite newer metadata even without duplicates in `put_tasks`. Data, metadata and
  memory stay in order if and only if nothing is submitted while an earlier put of
  the key or its writer is at work (`PublishOrder.SubmitKeepsOrder`,
  `PublishOrder.NotInTasksButBusy`).
- A load that is given a memory object that is not valid, or has no tensor where one
  is asserted, ends without releasing its reference; no other load does
  (`Publish.ReferencesConserved`).
- The PCI fields are cut out eight bits off, so the order is numeric exactly for
  domains below 256 (`PciOrder.OrderExact`); in general the table ascends by the low
  eight bits of the domain (`PciOrder.PublishTable`).
- The comments above `decimal_left_shift` and `decimal_right_shift` are exchanged;
  the right shift divides. `grisu2_digit_gen` asks for normalised bounds, but the
  products it is given may have their top bit clear; M+ of at least 2^60 is enough
  (`Grisu.DigitGen`).

## Model

| member | source | states |
|---|---|---|
| `Layout.HostInSegment` | libfgds/fgds.cc:271-293 | Segment o / 1 GiB exists for every byte o of a registration and byte o falls inside it: the segments tile the buffer. |
| `Layout.HostInjective` | libfgds/fgds.cc:288-296 | Two different bytes of a registration never have the same host address. |
| `Layout.TablePartitions` | libfgds/fgds.cc:875-902 | Byte by byte and in order, a transfer table visits exactly the host addresses of the window: nothing skipped, repeated or moved. |
| `Layout.TableShape` | libfgds/fgds.cc:857-908 | Every entry is non-empty and inside one segment, the entries add up to the window, and there is one per segment touched. |
| `Layout.SmallWindowTouchesTwo` | libfgds/fgds.cc:827-828 | A window of at most 1 GiB touches one or two segments, as the comment says of sub-I/Os. |
| `Registry.Device.Insert` | libfgds/fgds.cc:185-196 | The new node becomes the head; the list is the new region followed by the old ones. |
| `Registry.Device.FindNode` | libfgds/fgds.cc:198-207 | Returns the first node that covers the range, or null; the list is followed through `next`. |
| `Registry.Device.Delete` | libfgds/fgds.cc:209-228 | Unlinks the first node with the same GPU address and keeps the rest in order; fails, changing nothing, exactly when there is none. |
| `Registry.FindIsUnique` | libfgds/fgds.cc:198-207 | With disjoint regions the node found is the only one that covers the range. |
| `Registration.Cleanup` | libfgds/fgds.cc:297-302 | Unmaps what a failed registration mapped: the mappings are those of before, plus exactly those whose munmap failed. |
| `Registration.MapSegments` | libfgds/fgds.cc:289-322 | The mmap-then-bind loop. On success every segment is mapped at its own range and bound; it fails exactly when a system call does, and then the mappings are undone while the segments bound so far stay bound. |
| `Registration.RegMem` | libfgds/fgds.cc:250-328 | Succeeds exactly when the length is a multiple of 64 KiB, memory can be allocated and no system call fails. Success adds the region at the head with its mappings and bindings; failure changes neither list nor mappings (unless a munmap of the cleanup fails). The registry stays lawful either way, and if the page tables of all registrations were filled in as the kernel module does it, they still are, the new one included. |
| `Registration.LawfulAfterRegister` | libfgds/fgds.cc:288-328 | Adding a region keeps the law: regions valid, disjoint and mapped, and the live mappings are exactly the regions' segments plus leaked ones, each counted once. |
| `Registration.LawfulAfterRemoval` | libfgds/fgds.cc:350-399 | So does taking one out together with its mappings, whose segments belong to no other region. |
| `Registration.UnmapSegments` | libfgds/fgds.cc:373-399 | The unbind-then-munmap loop goes on after failures and reports success exactly when there was none; only mappings whose munmap failed remain. |
| `Registration.DeregMem` | libfgds/fgds.cc:350-400 | A call that names no registration exactly changes nothing; one that does removes it from the list, and reports success exactly when no system call failed, with its mappings and bindings gone. The page tables of the other registrations stay filled in. |
| `Registration.RegisterThenDeregister` | libfgds/fgds.cc:250-400 | Registering then deregistering is the identity on the list always, and on mappings exactly when no system call fails. |
| `XferTable.FillTable` | libfgds/fgds.cc:875-906 | The fill loop over segments start..end produces the greedy table of the window, left to right, and nothing is left over. |
| `XferTable.IndicesFit` | libfgds/fgds.cc:857-873 | For a window inside its region no 32- or 64-bit computation wraps, and neither later range check can fire. |
| `XferTable.EmptyAtStart` | libfgds/fgds.cc:858-873 | An empty window at offset 0 wraps around in the unsigned arithmetic and is refused. |
| `XferTable.DoXferAddr` | libfgds/fgds.cc:829-909 | For a non-empty window: a table exactly when a region covers the range, the window ends inside it and memory can be allocated, and then the greedy table; the two later rejections never fire. Empty windows give null or a table that moves nothing. |
| `Transfer.ReadCompletes` | libfgds/fgds.cc:511-516 | When one read of a set of disjoint pieces completes, exactly its bytes of the window take the file's values and the rest stay, whatever the order. |
| `Transfer.WriteCompletes` | libfgds/fgds.cc:703-708 | The same for writes: the file afterwards holds the completed pieces, zeros in holes and the old bytes elsewhere. |
| `Batch.InvCompletes` | libfgds/fgds.cc:541-559 | A completion keeps the batch invariant: bytes moved so far, bytes still in flight, and the sum of results are those of one big call. |
| `Batch.InvReaps` | libfgds/fgds.cc:549-558 | So does reaping a non-negative result and adding it to the count. |
| `Tiling.TableTiles` | libfgds/fgds.cc:502-517 | The requests made from consecutive tables tile the call's bytes in order, at the matching file offsets. |
| `Tiling.Launch` | libfgds/fgds.cc:526-533 | Submitting requests that tile the next bytes of the window starts the batch with the invariant. |
| `Packing.BatchIsFull` | libfgds/fgds.cc:472-523 | Every batch takes all that is left or at least 255 sub-I/Os, so `done` grows every turn. |
| `Packing.BatchesBound` | libfgds/fgds.cc:464-523 | A call takes at most ceil(nbyte / (255 * 256 KiB)) batches. |
| `Packing.InRangeNoResidue` | libfgds/fgds.cc:472-490 | A window inside its registration leaves nothing prepared behind. |
| `Packing.OverrunLeavesResidue` | libfgds/fgds.cc:485-490 | A 768 KiB window over a 512 KiB registration is refused with two entries left in the submission queue. |
| `Packing.BatchExact` | libfgds/fgds.cc:472-523 | The fill loop in closed form: how many bytes a batch takes, how many entries it has, and, if a sub-I/O runs past the registration, how many entries were prepared before it. |
| `Packing.ResidueExact` | libfgds/fgds.cc:472-490 | For every window: nothing is left prepared if it lies inside the registration; otherwise what is left is counted in closed form from the start of the batch that overruns, and it is nothing exactly when the first sub-I/O of that batch does not fit. |
| `Packing.OneBatchResidue` | libfgds/fgds.cc:472-490 | For a window of at most 255 sub-I/Os: nothing is left behind if and only if it lies inside the registration or its first sub-I/O already runs past the end. |
| `Packing.AlignedResidue` | libfgds/fgds.cc:472-490 | For a window of any length that starts at a multiple of 256 KiB, the same condition by arithmetic on offset, length and end alone. |
| `Pipeline.PrepareTable` | libfgds/fgds.cc:502-517 | Prepares one request per table entry at advancing file offsets; the queue never runs out of slots. |
| `Pipeline.FillBatch` | libfgds/fgds.cc:472-523 | Fills at most 256 slots with requests that tile the next bytes of the call; stops with an error exactly when a sub-I/O runs past the registration, leaving exactly the entries prepared before it. |
| `Pipeline.ReapBatch` | libfgds/fgds.cc:539-584 | Reaps one completion per request in any order. Reports an error exactly when a request failed, and even then leaves nothing in flight or unreaped; without error the count is that of one big call. |
| `Pipeline.DrainBatch` | libfgds/fgds.cc:563-581 | After a failure, peeking and waiting empties the ring of this batch. |
| `Pipeline.RingTransfer` | libfgds/fgds.cc:464-598 | The ring path for reads and writes: count, memory and file as by one big call, in the stated number of batches; -1 exactly if a request failed or the window runs past the registration; otherwise untouched bytes stay; prepared entries left behind are exactly the residue. |
| `Direct.OffsetAfterShortRead` | libfgds/fgds.cc:418-429 | Continuing at the count of bytes actually read asks for the same bytes as continuing at the table offset, since reads are short only at end of file. |
| `Direct.RunTable` | libfgds/fgds.cc:418-431 | The direct loop stops at the first failed piece with -1; without failures its count and effect are those of one call. |
| `Direct.Callback` | libfgds/integration.cc:23-38 | The callback adds every return value, errors included, and goes on: its count is that of one call exactly when no piece failed. |
| `Api.DirectTransfer` | libfgds/fgds.cc:404-432 | fgds_read_direct (and fgds_write_direct, lines 601-630): refused without effect if the window is not in a registration; -1 exactly on a failed piece; otherwise one big pread or pwrite. |
| `Api.FgdsTransfer` | libfgds/fgds.cc:439-598 | fgds_read and fgds_write for every size, offset, file length, completion order and failure pattern: succeeds exactly when the ring is set up, no request fails and the window lies in the registration; then count and effect are those of one pread or pwrite; only the window's own bytes ever change; nothing is left in flight or unreaped, and left-over prepared entries are exactly the residue. |
| `Api.ReadIsOneSplice` | libfgds/fgds.cc:464-598 | Seen through the registration, a finished read is one splice of the file's bytes, cut at end of file, into the GPU buffer. |
| `Api.OtherBuffersUnchanged` | libfgds/fgds.cc:464-598 | No other registered buffer changes, even when requests fail. |
| `GpuAddress.ReadStartExact` | libfgds/fgds.cc:838-855 | The bytes an accepted read brings in land at the GPU address passed plus the buffer offset, for every file and memory, if and only if that address is the start of the registration. |
| `GpuAddress.WriteStartExact` | libfgds/fgds.cc:838-855 | The same for the bytes a write takes. |
| `GpuAddress.InteriorAccepted` | libfgds/fgds.cc:198-207 | Addresses inside a registration are accepted too, so the condition can fail. |
| `Api.LawfulIsGood` | libfgds/fgds.cc:250-400 | The registry's law provides what the transfer engine relies on, including that no two registrations share host memory. |
| `Api.WriteThenRead` | libfgds/fgds.cc:439-783 | Writing a window and reading the same file range into any registered window reproduces the bytes whenever no request fails, also when the two calls take different paths. |
| `Api.RoundTrip` | libfgds/fgds.cc:439-783 | The bytes of a finished read after a finished write of the same range are the bytes written. |
| `Api.FgdsAsync` | libfgds/integration.cc:41-56 | Launches exactly when a table can be made for the window at offset 0; the callback then has the effect of one call exactly when no piece failed. |
| `RingProtocol.CutIsContiguous` | libfgds/fgds.cc:502-517 | The entries of a sub-I/O cover its bytes in order, one per segment touched. |
| `RingProtocol.StepKeeps` | libfgds/fgds.cc:464-595 | Every step of every thread, and every completion, keeps the ring invariant (lock, ring content, and each call's books). |
| `RingProtocol.RingSafety` | libfgds/fgds.cc:464-595 | For any number of threads, any interleaving, completion order and results, if no window leaves a residue: at most one thread is in a turn; when the lock is free the ring is empty; the submission queue never runs out of slots; whatever the ring holds was prepared by the lock holder's current call; a call that returned a count returned the sum of the completions of exactly its own entries, which tile its bytes. |
| `RingProtocol.NeverExhausted` | libfgds/fgds.cc:501-511 | The comment that a slot is always free is right for a clean ring: under the invariant the branch for a missing slot cannot be taken. |
| `RingResidue.ResidueSpoils` | libfgds/fgds.cc:485-490 | The condition is needed: any call whose window leaves a residue has a run, from any initial state, that ends with the lock free and exactly that many entries in the queue. |
| `RingResidue.LeftoversInflate` | libfgds/fgds.cc:526-559 | A later call whose entries still fit beside the left-over ones has a run that returns its own bytes plus exactly the left-over bytes. |
| `RingResidue.LeftoversExact` | libfgds/fgds.cc:501-559 | From every reachable state with the lock free and every window inside its registration: a count can be returned if and only if the entries in the queue and those of the first batch fit into 256 slots; otherwise every run of the call returns -1. |
| `RingResidue.FullQueueJams` | libfgds/fgds.cc:503-511 | Once 256 entries are queued with the lock free, in every run the queue stays as it is and every later call of every thread returns -1. |
| `RingResidue.ExhaustJams` | libfgds/fgds.cc:503-511 | Taking the branch for a missing slot from any reachable state leads into that state. |
| `RingResidue.JamReachable` | libfgds/fgds.cc:485-511 | And a run from every initial state leads there. |
| `RingMemory.MoveKeeps` | libfgds/fgds.cc:464-598 | With memory and file added to the machine, every step keeps the invariant that ties what each call in progress has moved to the requests it has finished. |
| `RingMemory.ConcurrentCalls` | libfgds/fgds.cc:439-783 | In every run in which each call starts on a window disjoint from those in progress (and no read runs past the end of a file that a write beside it extends): when a call is about to return its count, its window holds what one pread gives, or the file what one pwrite gives, and the count is that of the one call, whatever the other threads did meanwhile. |
| `RingMemory.ConcurrentFrame` | libfgds/fgds.cc:439-783 | In every such run, failing requests included, a byte of memory changes only while a read that has it in its window is in progress, and a byte of the file only while such a write is; the file never gets shorter. |
| `RingMemory.AnyFinish` | libfgds/fgds.cc:541-559 | The machine does not restrict the kernel: from every state of the invariant any request in flight may finish next, with any outcome. |
| `PageMap.BarCheckExact` | module/fgds-mem.c:225-233 | The unsigned bound check accepts exactly the 64 KiB pages inside the BAR if and only if the BAR is at least 64 KiB. |
| `PageMap.FillBounds` | module/fgds-mem.c:150-161 | The fill loop stays inside the page table it allocated exactly for length 0 or above 60 KiB; a multiple of 64 KiB gets exactly its number of CPU pages. |
| `PageMap.SlotPage` | module/fgds-mem.c:225-237 | Through the BAR mapping and back, wrap-around included, slot j of a device page is its physical address plus j CPU pages. |
| `PageMap.CollectPages` | module/fgds-mem.c:210-218 | Copies the physical addresses; succeeds exactly when no page is missing. |
| `PageMap.FillTable` | module/fgds-mem.c:224-238 | Succeeds exactly when the table is long enough and every device page passes the BAR check, and then slot k holds CPU page k % 16 of device page k / 16. Runs off the end of a table that is too short exactly when the pages up to there pass the check. |
| `PageMap.InsertDevice` | module/fgds-mem.c:206-247 | From the driver's answer to the inserted pages, for every length: runs off its table exactly for the stated lengths and pages; otherwise maps exactly when all pages are present, in the BAR and insertable; a missing page makes it return the driver's code. |
| `PageMap.MapInner` | module/fgds-mem.c:126-267 | For every length: the fill loop leaves its table exactly for 4 to 60 KiB with the device page present and in the BAR. Otherwise `remap` becomes true exactly on success, with every CPU page backed by its part of its device page, and the one way to return 0 without mapping is a missing page the driver did not report. `dev_page_addrs` keeps the address of a freed array exactly if the call fails after collecting the page addresses. Nothing outside the area changes. |
| `PageMap.MapThenRelease` | module/fgds-mem.c:319-344 | A MAP call on a new buffer followed by fgds_mbuffer_free frees the address array twice if and only if the addresses were collected and the pages then failed the BAR check or could not be inserted. |
| `PageMap.LookupExact` | module/fgds-mem.c:81-116 | A buffer is found if and only if the address is non-zero, page-aligned, inside its area, and the buffer was mapped at exactly that address and length. |
| `PageMap.MapDevAddr` | module/fgds-mem.c:279-296 | Refuses an unknown area or a GPU address not above the length, changing nothing; otherwise binds and maps, with the outcomes of MapInner. No page outside the area changes. |
| `EndToEnd.IoctlByKernel` | module/fgds-mem.c:279-296 | The kernel's MAP call meets the contract the library's registration is proved against: when it answers 0, every CPU page of the segment is backed by its part of its GPU page, unless the driver left a page out without reporting it; no page outside the segment changes. |
| `EndToEnd.ByteReachesDevice` | module/fgds-mem.c:224-245 | Byte o of a registered buffer reaches device page o / 64 KiB at o % 64 KiB, inside the BAR. |
| `EndToEnd.TransferReachesDevice` | libfgds/fgds.cc:829-909 | The same for byte i of any transfer table over any live registration. |
| `EndToEnd.Register` | libfgds/fgds.cc:250-328 | A call of fgds_regmem, successful or not: afterwards every byte of every registration in the list, the new one and all earlier ones, reaches its own byte of GPU memory through the page tables, provided its GPU pages are present. |
| `DiyFp.MulRounds` | benchmarks/safetensor/safetensors.hh:2527-2586 | The product built from 32-bit halves is floor((x * y + 2^63) / 2^64) for all 64-bit significands; no intermediate sum wraps. |
| `DiyFp.Normalize` | benchmarks/safetensor/safetensors.hh:2592-2599 | Same number, top bit set. |
| `Grisu.Round` | benchmarks/safetensor/safetensors.hh:2917-2944 | Lowers the last digit to the candidate closest to w among all inside the interval, without overflow, and never to zero. |
| `Grisu.FindLargestPow10` | benchmarks/safetensor/safetensors.hh:2880-2915 | For 0 < n < 2^32: 10^(k-1) <= n < 10^k and pow10 = 10^(k-1). |
| `Grisu.Integral` | benchmarks/safetensor/safetensors.hh:2983-3070 | The integral loop either stops with an optimal number or has exactly the integral digits, with the remainder still too large. |
| `Grisu.Fractional` | benchmarks/safetensor/safetensors.hh:3109-3162 | The fraction loop ends within -e turns, without 64-bit overflow of p2, delta or dist, with an optimal number. |
| `Grisu.DigitGen` | benchmarks/safetensor/safetensors.hh:2950-3177 | For 0 < M- <= w <= M+ with common exponent in [-60, -32]: digits 0 to 9 with first and last not zero, V in [M-, M+], no multiple of ten times the last place in the interval, and no multiple of the last place in it closer to w. |
| `Dtoa.ComputeBoundaries` | benchmarks/safetensor/safetensors.hh:2625-2691 | For every positive finite double: exact midpoints to both neighbours and the value itself, normalised to one exponent. |
| `Dtoa.Grisu2` | benchmarks/safetensor/safetensors.hh:3184-3232 | With room for 17 digits: after scaling by any suitable power c at most 17 digits are written, and every value they can stand for lies strictly between the exact products m- * c and m+ * c. |
| `Dtoa.FormatDouble` | benchmarks/safetensor/safetensors.hh:3240-3270 | The whole path for every positive finite double, every table of suitable powers and every buffer of at least 17 places. |
| `Dtoa.SeventeenEnough` | benchmarks/safetensor/safetensors.hh:3166-3182 | The scaled interval of a double is never narrower than one part in 10^16 of its upper end, so digit generation stops by the seventeenth digit, as the comment promises. |
| `DecimalShift.Decimal.Trim` | benchmarks/safetensor/safetensors.hh:2097-2101 | Drops final zeros and keeps the value. |
| `DecimalShift.Decimal.Lead` | benchmarks/safetensor/safetensors.hh:2275-2287 | Reads digits, then zeros, up to the first position where the quotient has a digit; gives up exactly for zero. |
| `DecimalShift.Decimal.Divide` | benchmarks/safetensor/safetensors.hh:2297-2301 | Long division in place: quotient digits overwrite only digits already read. |
| `DecimalShift.Decimal.Flush` | benchmarks/safetensor/safetensors.hh:2302-2310 | Flushes the remainder; ends because its power of two rises every round; notes truncation exactly when a dropped digit is not zero. |
| `DecimalShift.Decimal.RightShift` | benchmarks/safetensor/safetensors.hh:2269-2313 | h / 2^shift exactly, for shift <= 60; or, if a non-zero digit had to be dropped, rounded down to 768 digits and flagged; zero stays; out of range becomes zero. |
| `Utf8.DecodeSound` | benchmarks/safetensor/safetensors.hh:1588-1808 | The byte ranges accept only encodings of Unicode scalar values (section 4 of RFC 3629). |
| `Utf8.DecodeComplete` | benchmarks/safetensor/safetensors.hh:1588-1808 | And all of them. |
| `JsonString.StringParser.Get` | benchmarks/safetensor/safetensors.hh:391-399 | The next byte, or 0 at the end without advancing. |
| `JsonString.StringParser.GetCodepoint` | benchmarks/safetensor/safetensors.hh:1128-1165 | The value of four hex digits, or -1 exactly if there are not four. |
| `JsonString.StringParser.NextByteInRange` | benchmarks/safetensor/safetensors.hh:1182-1206 | Copies the bytes exactly if each lies in its range. |
| `JsonString.StringParser.ScanUnicode` | benchmarks/safetensor/safetensors.hh:1287-1384 | Accepts exactly the well-formed unicode escapes, surrogate pairs included, and appends the UTF-8 form of the character. |
| `JsonString.StringParser.ScanString` | benchmarks/safetensor/safetensors.hh:1222-1814 | Accepts exactly the inputs that begin with a JSON string literal; the token is the UTF-8 form of its meaning; ends on every input. |
| `JsonString.ScanExact` | benchmarks/safetensor/safetensors.hh:1222-1814 | A literal in the sense of section 7 of RFC 8259 is read in one way only, and scanning finds it. |
| `JsonString.SearchAgrees` | benchmarks/safetensor/safetensors.hh:984-990 | The outer quote search stops at the scanner's closing quote for every mix of escapes, surrogate pairs and multi-byte characters. |
| `JsonString.SliceAgrees` | benchmarks/safetensor/safetensors.hh:984-1027 | Scanning the cut slice accepts exactly when scanning the text does, and ends on the slice's last byte. |
| `Json.ReadString` | benchmarks/safetensor/safetensors.hh:958-1032 | parse_string gives what scanning the text itself gives, followed by the delimiter check. |
| `Json.ReadNumber` | benchmarks/safetensor/safetensors.hh:916-955 | The literal the grammar of parse_number takes, or an error; JsonGrammar.NumberExact says which literals those are. |
| `JsonGrammar.NumberExact` | benchmarks/safetensor/safetensors.hh:916-955 | The number reader accepts exactly the literals of an independent grammar followed by a delimiter, and keeps their text. |
| `Json.ReadAny` | benchmarks/safetensor/safetensors.hh:1035-1044 | The recursive-descent parser with its loops gives the result of the recursive specification. |
| `Json.ReadObject` | benchmarks/safetensor/safetensors.hh:796-846 | Members in order; the error cases of the source, duplicate keys included. |
| `Json.ReadArray` | benchmarks/safetensor/safetensors.hh:849-881 | Items in order; the error cases of the source. |
| `JsonGrammar.ParseExact` | benchmarks/safetensor/safetensors.hh:796-1044 | The parser accepts a text if and only if it starts, behind blanks, with the rendering of a grammar tree (blanks anywhere they may stand, escapes, every number form, no key twice), and the result is the meaning of that tree. |
| `JsonPrint.AnyKeyed` | benchmarks/safetensor/safetensors.hh:822-825 | No parsed object, at any depth, has a key twice. |
| `JsonPrint.PlainExact` | benchmarks/safetensor/safetensors.hh:4771-4775 | A string printed raw between quotes is read back as itself if and only if it is well-formed UTF-8 without quotes, backslashes and control characters. |
| `JsonPrint.PrintParses` | benchmarks/safetensor/safetensors.hh:796-1044 | Every document of plain strings, decimal numbers, arrays and objects without duplicate keys, printed anywhere in a text, parses to itself. |
| `Safetensors.TensorBack` | benchmarks/safetensor/safetensors.hh:3730-3850 | A written tensor is read back as itself if and only if it has at most eight dimensions, the number conversion keeps its dimensions and offsets, and no dimension is zero: the reader then refuses the data offsets the writer gives. |
| `Safetensors.HeaderBack` | benchmarks/safetensor/safetensors.hh:4344-4395 | A written header is read back as the same tensors and metadata in the same order, if and only if no tensor has a zero dimension and the conversion keeps all numbers. |
| `Safetensors.RoundTrip` | benchmarks/safetensor/safetensors.hh:4743-4859 | For values with plain, different names and at most eight dimensions: load after save gives back tensors, metadata, order and data if and only if no tensor has a zero dimension and the conversion keeps all numbers; with a zero dimension it is refused; the data starts at a multiple of eight. |
| `SafetensorsExact.RoundTripExact` | benchmarks/safetensor/safetensors.hh:4743-4859 | For every value and every conversion of number literals: load after save gives back the value if and only if all names are plain text and different, none is __metadata__, no tensor has a zero dimension or more than eight, the header is at most 100 MiB, and the conversion gives every dimension and offset back. |
| `SafetensorsExact.SmallRoundTrip` | benchmarks/safetensor/safetensors.hh:4743-4859 | With numbers below 2^53 and a conversion that is exact there, as one through doubles is, the condition on the numbers falls away. |
| `Safetensors.HeaderlessLoads` | benchmarks/safetensor/safetensors.hh:4446-4473 | For every input with a well-formed frame: if the first octet of the header behind blanks is not an opening brace, it loads exactly when the header parses, as a value without tensors and metadata; otherwise an accepted value comes from an object and has its members. |
| `Safetensors.NullHeaderLoads` | benchmarks/safetensor/safetensors.hh:4446-4473 | The header `null` in front of any data loads as an empty value. |
| `SafetensorsIo.ShapeSize` | benchmarks/safetensor/safetensors.hh:4644-4660 | The product of the dimensions modulo 2^64; 1 for a scalar, 0 for eight dimensions or more. |
| `SafetensorsIo.ValidateDataOffsets` | benchmarks/safetensor/safetensors.hh:4662-4741 | Valid exactly when every tensor's offsets fit and, if all hold data, the last ends with the data. |
| `SafetensorsIo.OffsetsCheckExact` | benchmarks/safetensor/safetensors.hh:4644-4741 | The check of one tensor implies that its offsets are in order, inside the storage and as long as its shape says if and only if it has fewer than eight dimensions and a true size in bytes that is not 0 and below 2^64. |
| `SafetensorsIo.Save` | benchmarks/safetensor/safetensors.hh:4743-4859 | A container exactly for consistent values with at most eight dimensions, and then the one with the printed header. |
| `SafetensorsIo.ReadTensor` | benchmarks/safetensor/safetensors.hh:3730-3850 | The member loop finds dtype, shape and offsets wherever they stand, and fails exactly as specified. |
| `SafetensorsIo.ReadHeader` | benchmarks/safetensor/safetensors.hh:4344-4391 | The loop over the root object collects tensors and metadata in order. |
| `SafetensorsIo.LoadFromMemory` | benchmarks/safetensor/safetensors.hh:4446-4473 | Accepts exactly what the specification accepts. |
| `SafetensorsIo.SaveThenLoad` | benchmarks/safetensor/safetensors.hh:4743-4859 | The two operations run one after the other, with the same exact condition. |
| `Publish.StepKeeps` | python/fgds_backend/fgds_backend.py:631-751 | Every step of puts, metadata writers, lookups, loads, and a crash, keeps the publication invariant. |
| `Publish.PublishSafety` | python/fgds_backend/fgds_backend.py:431-536 | After any run, crashes included: a key listed in memory, with a visible metadata file, or answered yes by a lookup has its complete data file in place. |
| `Publish.ReferencesConserved` | python/fgds_backend/fgds_backend.py:598-852 | After any run the reference count of an object is the number of puts that have not released it and loads that have not dropped it; a load keeps it without returning it exactly if the memory object was not valid or its asserted tensor is missing; once all are gone and dropped the count is zero. |
| `Publish.PendingKeys` | python/fgds_backend/fgds_backend.py:606-608 | From every reachable state: put_tasks stays exact for a key in every continuation without a duplicate submission if and only if it is exact now and at most one put of the key is pending. |
| `Publish.SubmitKeepsExact` | python/fgds_backend/fgds_backend.py:594-608 | So a submission keeps it exact if and only if the key is not in put_tasks at that moment, which a caller can ask with exists_in_put_tasks. |
| `Publish.DuplicateBreaks` | python/fgds_backend/fgds_backend.py:704-706 | A state with a pending put whose key is not in put_tasks is reachable from the start. |
| `Publish.LookupsExact` | python/fgds_backend/fgds_backend.py:529-572 | In every run, a finished `contains` answered yes if and only if the key was in memory when it looked. |
| `Publish.DiskOnlyMisses` | python/fgds_backend/fgds_backend.py:529-572 | So an entry that is only on disk is answered no, whatever happens meanwhile. |
| `Publish.DiskOnlyReachable` | python/fgds_backend/fgds_backend.py:529-572 | Such an entry, data and metadata in place, is reachable from the start (a put, its metadata writer, a crash). |
| `PublishOrder.SerialAgrees` | python/fgds_backend/fgds_backend.py:631-717 | If no put of a key is submitted while an earlier one can still rename a file, then in every run the metadata and the entry in memory are never newer than the data, and the metadata is that of the data once it was renamed. |
| `PublishOrder.SubmitKeepsOrder` | python/fgds_backend/fgds_backend.py:631-717 | After such a run, a submission keeps this in every continuation if and only if no earlier put of the key, or its metadata writer, is still at work. |
| `PublishOrder.NotInTasksButBusy` | python/fgds_backend/fgds_backend.py:704-717 | Asking put_tasks is not enough for that: a state is reachable where the key is not in it and its writer is still at work. |
| `PciOrder.OrderExact` | module/nvfs-pci.c:298-319 | The field-wise order puts a device after every numerically smaller one if and only if its PCI domain is below 256. |
| `PciOrder.Sort` | module/nvfs-pci.c:308-319 | The exchange sort is a permutation in field order. |
| `PciOrder.PublishTable` | module/nvfs-pci.c:298-323 | The published table is a permutation of the discovered devices. For every list it ascends by the low eight bits of the domain, then by bus and device; so it is in numeric order if all domains are below 256. Later slots are untouched. |
| `PciOrder.LookupIndex` | module/nvfs-pci.c:127-143 | From any hash value the wrap-around probe returns a slot holding the key, or UINT_MAX exactly if there is none. |
| `PciOrder.FoundAtIndex` | module/nvfs-pci.c:127-143 | In a table of different devices every non-zero device is found at its own index. |

## Left out

- Opening and closing devices, lazy ring set-up beyond its success or failure, and the file descriptors: the model starts from an open device.
- io_uring itself, mmap, ioctl, page insertion and the GPU driver: small abstract specifications take their place. A submit takes the whole queue, waiting does not itself fail, reads are short only at end of file, and a successful write is full.
- Registrations are non-empty, disjoint on the GPU and end below 2^61; sizes and offsets are non-negative and below 2^63. The code relies on this without checking.
- Api.FgdsTransfer: takes allocation of the per-sub-I/O tables on the ring path to succeed; on the direct path its failure is modelled.
- RingProtocol.RingSafety: one device and its ring; the assumptions on submitting and waiting are those of the single-call model.
- RingMemory.ConcurrentCalls: calls whose windows overlap, and a read past the end of a file that another call extends, have no stated result; calls small enough for the direct path that run beside the ring are not in the machine.
- PageMap.MapInner: the driver's answer has an entry, possibly null, for every page asked for, since the code reads that many; when the fill loop leaves its table, that it does is stated, and what happens afterwards is not.
- EndToEnd.Register: the page tables are those of one process, and the driver's answer for a GPU page does not change while it is registered.
- Registration.RegMem: registering, deregistering and looking up run one at a time; the list lock and lookups without it are not modelled.
- The reference-counted buffer table of the module, forced release by the GPU driver, unmapping in the kernel (releasing a buffer is modelled for its own fields), and BAR discovery.
- Dtoa.FormatDouble: the table of cached powers of ten is a parameter with its documented range; how well an entry approximates its power, and so that the digits read back as the very same double, is not stated.
- DecimalShift.Decimal.RightShift: the decimal point is an unbounded integer.
- The left shift of decimals with its table, rounding to binary, and the formatting of digits with exponents.
- Json.ReadNumber: keeps the literal; how a literal becomes a number is a parameter of the loader, and that going through a double is exact below 2^53 (`Safetensors.ExactBelow53`) is an assumption where it is used.
- JsonString.StringParser.AddCodepoint: the bitwise ORs of disjoint bits are written as sums.
- Memory-mapped safetensors files, bfloat16 and half conversions, error message texts.
- Publish.PublishSafety: temporary names do not collide, and the contents of an entry are represented by the put that wrote it; keys, paths and the packing of metadata are not modelled.
- PciOrder.PublishTable: at most 64 devices, as the code assumes.
- Benchmarks, the fio engine, the key-value cache reader, the Python bindings and the build scripts.
