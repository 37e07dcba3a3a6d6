# DOCA backend engine: transfer-request ring and connection table

This project models the host side of the NIXL DOCA backend engine
(`nixlDocaEngine`, src/plugins/doca/doca_backend.cpp and doca_backend.h) and
proves properties of that model.

The engine keeps a ring of `DOCA_XFER_REQ_MAX` = 16 slots in memory that the
host and the GPU share. Each slot (`docaXferReqGpu`) holds three parallel
arrays of `DOCA_XFER_REQ_SIZE` = 512 entries (`larr`, `rarr` and `size`) and a
16-bit occupancy counter `num`. The engine also keeps:

- a uint32 reservation counter `xferRingPos`;
- a low-water mark `firstXferRingPos`;
- a table `remoteConnMap` from agent names to connection entries.

The model is split into three modules:

- `DocaTypes` (doca_types.dfy) holds the constants, the integer widths and the records.
  - The uint16 `num` wraps at 2^16 and the uint32 counter wraps at 2^32.
  - `& (DOCA_XFER_REQ_MAX - 1)` is written out as a bitwise AND on unsigned values. It is proved equal to reduction mod 16, including across the counter's wrap-around.
- `XferRing` (xfer_ring.dfy) is the value-level specification of the ring operations:
  - what `prepXfer` writes into the ring and the counter (`PrepXferSpec`, defined through the slot-by-slot `FillFrom`);
  - what `checkXfer` reads back (`CheckFrom`);
  - what `postXfer` enqueues (`Launches`).

  Its lemmas state what these functions mean.
- `DocaEngine` (doca_engine.dfy) holds the `Engine` class.
  - The ring is an `array<Slot>`. The counters and the connection table are fields, and a ghost log records the kernels `postXfer` enqueues.
  - Each method has the loops of its source function and is proved against the `XferRing` function that specifies it. Methods that change the table state their new state outright.

The source's quirks are kept as written and stated as lemmas:

- Every slot of a request is filled from pair 0 on: the inner index restarts for each slot.
- `num` accumulates across reuses of a slot and is zeroed only at start-up.
- A length mismatch is found only after a ring position has been reserved, and nothing is rolled back.
- The handle's start is masked but its end is the raw counter.

The model follows the code as written, including where it behaves differently from what a reader of the engine's interface would expect:

- `disconnect` leaves the agent's entry in place; it returns SUCCESS and does nothing.
- `prepXfer` does not check that the remote agent has a connection entry. Its `operation` and `remote_agent` arguments are unused.
- `prepXfer` compares the pair lengths only after it has reserved a position and started writing into it, so a rejected request still uses up a ring position.
- A slot has no completion counter of its own; `num` is its only counter. `checkXfer` compares `num` with the capacity 512, not with the number of pairs written into the slot. It reports SUCCESS for slots whose `num` is 0 or 512, and IN_PROG for a partly filled last slot until the GPU side changes `num`.
- A second `loadRemoteConnInfo` for a known agent returns INVALID_PARAM, not a dedicated already-connected error.

External effects become parameters:

- The outcome of `doca_rdma_connect` is the boolean `connectSucceeded` of `LoadRemoteConnInfo`.
- The outcome of the mmap import and buffer-array setup in `internalMDHelper` is `importSucceeded`.
- The CUDA stream taken from `opt_args->customParam` is the `stream` argument.
- The GPU's writes to a slot's `num` are the environment method `GpuWriteNum`.
- `fetch_add(1)` is a sequential increment.

## Model

| member | source | states |
|---|---|---|
| DocaTypes.ZeroSlot | src/plugins/doca/doca_backend.cpp:229 | the slot as cudaMemset leaves it: K entries in each array, all zero, and num == 0 |
| DocaTypes.Inc16 | src/plugins/doca/doca_backend.h:122 | `num++` on a uint16_t: adds one below 65535 and wraps 65535 to 0 |
| DocaTypes.Count | src/plugins/doca/doca_backend.cpp:555-556 | the uint32 cast of a list length never exceeds the length and equals it for lists shorter than 2^32 |
| DocaTypes.AddWrap32Step | src/plugins/doca/doca_backend.cpp:564 | one more `fetch_add(1)` on a counter advanced k times leaves it advanced k + 1 times, modulo 2^32 |
| DocaTypes.CapabilityFlags | src/plugins/doca/doca_backend.h:173-176 | the engine supports remote transfers and neither local transfers, notifications nor a progress thread |
| DocaTypes.LowMaskIsMod | src/plugins/doca/doca_backend.h:52 | masking with 2^k - 1 equals reduction mod 2^k, for every value and every k |
| DocaTypes.RingIndex | src/plugins/doca/doca_backend.cpp:564 | `counter & (DOCA_XFER_REQ_MAX - 1)` is below 16 and equals counter mod 16 |
| DocaTypes.RingIndexAcrossWrap | src/plugins/doca/doca_backend.cpp:585 | the mask of the counter advanced j times, wrapping at 2^32, is (c + j) mod 16: wrapping does not disturb the ring index |
| XferRing.FirstMismatch | src/plugins/doca/doca_backend.cpp:568-572 | the index where the per-pair length check fires: all pairs before it have equal lengths, and the pair at it (if any) does not |
| XferRing.Put | src/plugins/doca/doca_backend.cpp:577-580 | writing one entry keeps the slot's three arrays at K entries |
| XferRing.FillSlotContents | src/plugins/doca/doca_backend.cpp:567-581 | after k passes of the inner loop, entries 0..k-1 come from local[0..k) and remote[0..k), later entries keep their values, and num has risen by k from its previous value modulo 2^16 |
| XferRing.FillSlotStep | src/plugins/doca/doca_backend.cpp:577-580 | one write-and-count step takes a slot filled up to k to the slot filled up to k + 1 |
| XferRing.FillSlotNone | src/plugins/doca/doca_backend.cpp:568 | before the inner loop runs, the slot is unchanged |
| XferRing.ReusedSlotOverflows | src/plugins/doca/doca_backend.cpp:580 | num is never reset: a zeroed slot filled to capacity by two requests counts 2K, and checkXfer reports ERR_BACKEND for it |
| XferRing.ReservedIsCeiling | src/plugins/doca/doca_backend.cpp:583-589 | slot j of an n-pair request exists exactly when j < ceil(n / 512) |
| XferRing.NextPosition | src/plugins/doca/doca_backend.cpp:564-585 | the j-th `fetch_add(1)` masks to position (c + j) mod 16 and leaves the counter at c + j + 1 modulo 2^32 |
| XferRing.FillFrom | src/plugins/doca/doca_backend.cpp:567-589 | the slot loop from the j-th reservation on keeps every slot at K entries per array |
| XferRing.FirstMismatchPrefix | src/plugins/doca/doca_backend.cpp:568-572 | when the first m' pairs pass the length check, so does every shorter prefix |
| XferRing.FillFromStep | src/plugins/doca/doca_backend.cpp:567-589 | a slot whose pairs all pass is filled with its share, and the loop goes on from the next reservation |
| XferRing.FillFromLaterSlotsPass | src/plugins/doca/doca_backend.cpp:567-589 | once the first slot passes the length check, no later slot fails it and the loop reserves exactly ceil(n / 512) positions |
| XferRing.PrepXferOutcome | src/plugins/doca/doca_backend.cpp:555-591 | unequal or zero counts leave the ring and counter unchanged with INVALID_PARAM; a mismatch among the first min(n, 512) pairs gives INVALID_PARAM after one reservation, with the entries before it left written and counted (no rollback); otherwise SUCCESS with the counter advanced by ceil(n / 512), handle start = old counter mod 16 and handle end = the unmasked new counter |
| XferRing.PosOffset | src/plugins/doca/doca_backend.cpp:564-585 | reservation j (j < 16) lands on index p exactly when p is j places after the masked start |
| XferRing.FillFromShape | src/plugins/doca/doca_backend.cpp:567-589 | with every pair passing and at most 16 reservations, each reserved index receives exactly its own share of pairs and every other index is left alone |
| XferRing.PrepXferFillsReservedSlots | src/plugins/doca/doca_backend.cpp:564-589 | on success with at most 16 reservations, the slot reserved j places after the start holds FillSlot with min(n - 512j, 512) pairs, and the slots not reserved are untouched |
| XferRing.TakenBeforeIsMin | src/plugins/doca/doca_backend.cpp:567-589 | the first j slots of a request receive min(n, 512j) pairs between them |
| XferRing.SharesSumToRequest | src/plugins/doca/doca_backend.cpp:567-589 | the shares of the ceil(n / 512) reserved slots add up to n |
| XferRing.ThreeSlotRequest | src/plugins/doca/doca_backend.cpp:567-589 | a 1100-pair request reserves three slots holding 512, 512 and 76 pairs |
| XferRing.PrepXferHandleRange | src/plugins/doca/doca_backend.cpp:564-591 | without counter wrap, the handle range has the length of the reservation only if the old counter was below 16, and stays within the ring's indices only while the new counter is at most 16 |
| XferRing.CheckFromClassifies | src/plugins/doca/doca_backend.cpp:630-642 | the scan returns only SUCCESS, IN_PROG or ERR_BACKEND; SUCCESS exactly when every slot in range has num 0 or 512 (an empty range included); IN_PROG exactly when the first other slot has 0 < num < 512; ERR_BACKEND exactly when it has num > 512 |
| XferRing.Launches | src/plugins/doca/doca_backend.cpp:612-621 | one launch per position of [start, end), position start + i at place i, in ascending order |
| DocaEngine.Engine.constructor | src/plugins/doca/doca_backend.cpp:229-236 | every slot zeroed, both counters 0, no connections, an empty launch log |
| DocaEngine.Engine.CheckConn | src/plugins/doca/doca_backend.cpp:281-286 | SUCCESS if and only if the agent has an entry, NOT_FOUND otherwise |
| DocaEngine.Engine.Connect | src/plugins/doca/doca_backend.cpp:297-300 | returns SUCCESS and changes nothing |
| DocaEngine.Engine.Disconnect | src/plugins/doca/doca_backend.cpp:302-304 | returns SUCCESS and changes nothing, known agent or not |
| DocaEngine.Engine.EndConn | src/plugins/doca/doca_backend.cpp:288-290 | returns SUCCESS and changes nothing |
| DocaEngine.Engine.LoadRemoteConnInfo | src/plugins/doca/doca_backend.cpp:306-336 | a known agent gives INVALID_PARAM and a failed connect gives BACKEND, both with the table unchanged; otherwise SUCCESS with exactly one entry {agent, connected} added |
| DocaEngine.Engine.InternalMDHelper | src/plugins/doca/doca_backend.cpp:446-513 | an agent without an entry gives NOT_FOUND before any import; a failed import gives BACKEND; otherwise SUCCESS with metadata carrying the agent's entry and the blob |
| DocaEngine.Engine.LoadRemoteMD | src/plugins/doca/doca_backend.cpp:527-534 | returns what internalMDHelper returns: NOT_FOUND for an agent without an entry, BACKEND when the import fails, otherwise SUCCESS with the table's entry for the agent and the descriptor's blob in the metadata |
| DocaEngine.Engine.PrepXfer | src/plugins/doca/doca_backend.cpp:543-599 | status, handle, ring and counter afterwards are those of PrepXferSpec on the ring and counter before (whose meaning PrepXferOutcome, PrepXferFillsReservedSlots and PrepXferHandleRange state) |
| DocaEngine.Engine.FillEntries | src/plugins/doca/doca_backend.cpp:568-581 | the inner loop writes and counts pairs 0 up to the first length mismatch into slot pos, and reports whether all m pairs passed |
| DocaEngine.Engine.PostXfer | src/plugins/doca/doca_backend.cpp:601-628 | READ/WRITE: one kernel of that direction per position of the range, ascending, then IN_PROG; any other operation: INVALID_PARAM with nothing enqueued if the range is non-empty; ring and counters untouched |
| DocaEngine.Engine.CheckXfer | src/plugins/doca/doca_backend.cpp:630-642 | the result is CheckFrom over the handle's range; the method changes nothing, so repeating it gives the same answer |
| DocaEngine.Engine.ReleaseReqH | src/plugins/doca/doca_backend.cpp:644-649 | the low-water mark becomes counter mod 16, nothing else changes, and the result is SUCCESS |
| DocaEngine.Engine.GpuWriteNum | src/plugins/doca/doca_backend.h:118-123 | the GPU side overwrites one slot's num and nothing else |

## Left out

- DOCA and CUDA calls are not modelled: device open, RDMA context setup, mmap create/export, buffer arrays, memory allocation and the kernels themselves. Only the success or failure of the connect and of the import is kept, as a boolean argument.
- `registerMem`, `deregisterMem`, `getConnInfo`, `getPublicData`, `loadLocalMD`, `unloadMD` and the notification stubs are not modelled. They are foreign calls, serialisation, or trivial SUCCESS returns.
- The constructor's parameter parsing, device lookup and warm-up kernels are not modelled. Only the ring and counter state it leaves is.
- Logging, console output and the placement-new request init/fini (`_requestInit`, `_requestFini`, `requestReset`) are not modelled.
- Concurrency is not modelled. `fetch_add` is a sequential increment, and the racy read of the counter for `end_pos` reads the value this call left.
- The memory `prepXfer` and `loadRemoteConnInfo` leak on their early returns is not modelled.
- The unit test under test/unit/plugins/doca is not part of this model.
- DocaEngine.Engine.PostXfer: for READ and WRITE, requires the handle's range to lie inside the ring (or be empty). Those two cases read the ring at every position of the range and have undefined behaviour past index 15. Any other operation returns INVALID_PARAM at the first position before reading the ring, and is modelled for every range. PrepXferHandleRange states when a handle meets the bound.
- DocaEngine.Engine.CheckXfer: requires the handle's range to lie inside the ring (or be empty), because it reads the ring at every position of the range.
- XferRing.PrepXferFillsReservedSlots: the slot-by-slot closed form is proved only when a request reserves at most 16 positions. Longer requests wrap round the ring and refill their own slots; FillFrom describes them, but no closed form is stated.
- XferRing.PrepXferHandleRange: stated only while the counter does not wrap past 2^32 - 1.
- DocaEngine.Engine.PrepXfer: the source reads `opt_args->customParam` before validating anything, and `opt_args` defaults to a null pointer. A call without optional arguments is therefore undefined behaviour, even for lists that would be rejected with INVALID_PARAM. The model always receives a stream, so it does not capture this null case.
- DocaEngine.Engine.PrepXfer: the descriptor metadata pointers `metadataP->mem.barr_gpu` are modelled as the integers `Desc.barr`, and the unused `operation` and `remote_agent` arguments are omitted.
