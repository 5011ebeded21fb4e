# Verified model of the igb driver

The driver in `src/igb.rs` runs the transmit and receive rings of an Intel 82576 controller over
packet buffers that belong to `src/memory.rs`. A buffer is an entry of a pool, and at any moment one
of five parties has it: the pool's free stack, a receive slot, the ids in flight on a transmit queue,
a packet in the client's hands, or the client after it has taken the id out of a packet. The NIC works
on the same rings and the same memory at its own pace. This project models the rings, the pools, the
client and the NIC as one step system, proves what every step keeps and what follows for whole runs,
and proves the driver's calls, written as methods that update queues in place, against the functions
the steps are made of.

## How it is laid out

| file | content |
|---|---|
| `Results.dfy`, `RingIndex.dfy`, `Buffers.dfy` | outcomes; `wrap_ring`, the power-of-two guard and ring arithmetic; memory and pools |
| `Transmit.dfy`, `Receive.dfy` | each ring as a value: what one action does to it, the counters behind its indices, and whole calls with the NIC active between status reads |
| `System.dfy` | client, driver and NIC as a step machine over shared memory |
| `Invariant.dfy`, `QueueSteps.dfy`, `Preservation.dfy` | the invariant and why each step keeps it |
| `Guarantees.dfy`, `Isolation.dfy` | what every run gives the client; which memory the NIC may touch; what happens when the client breaks its side |
| `Calls.dfy` | whole calls, with NIC and closure active, are runs of the step machine; exact counts in reachable states |
| `Answers.dfy` | what each call answers and leaves behind, from an idle driver to an idle driver; where steps panic |
| `Startup.dfy` | what `init` leaves behind, and that it establishes the invariant |
| `Witnesses.dfy` | runs from start-up that reach the limits: full rings, mixed pools, cut frames |
| `MemPools.dfy`, `Igb.dfy`, `Device.dfy` | `MemPool`, packets, the queues and the device as classes updated in place |
| `Descriptors.dfy`, `Registers.dfy` | the packed descriptor words; ring register offsets; the interrupt vector table |
| `PhySync.dfy`, `Phy.dfy` | the software/firmware lock of the archived driver variant, as a step machine and as code run against it |

The unbounded counters (packets sent, fetched, written back, cleaned, delivered) exist only in the
proofs. The `Window` predicates of the two ring modules tie every index register to its counter modulo
the ring size and say on which slots the Done bit is set. That is what makes a Done bit left over from
an earlier lap impossible to believe.

## What is assumed of the other parties

The NIC fetches and fills only slots from its head up to the tail register, in ring order. It writes
one frame into one buffer, no more than `entry_size` bytes and with a length that fits sixteen bits.
It writes a descriptor back only after it has finished with the buffer, with Done and EOP both set
and the length of the frame, and the write-back destroys the address word. These are the rules of
chapters 7.1 and 7.2 of the Intel 82576 datasheet. Nothing is assumed about timing: NIC steps may come
between any two driver steps.

The physical ranges of pool entries do not overlap, and entries have at least 32 bytes
(`GoodPools`; a linear address map gives the former). The client uses one pool per transmit queue
while packets are in flight there, and constructs packets only from ids it has detached and inside the
entry (`Allowed`). `SendMixesExact` and `ConstructExact` show that neither condition can be dropped.

These conditions can all be met together: `FreshInit` builds such a system from pools as `allocate`
leaves them, and `Witnesses` runs it.

A whole call takes what the NIC does before each status read, and what the closure does with the pool
when shown a packet, as arbitrary schedules. A closure is lawful if it gives back only entries the
client has: those it is shown, those it takes, and those from before.

Rings have fewer than 2^31 slots, as the driver casts indices to `i32`.

Firmware takes its side of the semaphore only while SWESMBI is clear and changes SW_FW_SYNC only while
it has it; the hardware refuses SWESMBI meanwhile.

## Where the code and its promises part

- The assertion in `send` that a queue uses a single pool cannot fail, because the queue's pool is
  replaced just before (`src/igb.rs:334-345`). Mixing pools is therefore not detected, and loses
  buffers: `SendMixesExact`; `MixMisroutes` shows where they go.
- `construct` checks nothing but the range of the id: `ConstructExact`.
- Rings of 32 slots or fewer never get a buffer back, since recycling works in batches of 32:
  `SmallRingStarves`, `SmallRingFills`. Rings of 64 slots or more recover: `LargeRingRecovers`.
- The received length is read as fifteen bits, the sent one is cut to sixteen: `ReceiveFifo`,
  `TransmitFifo`, with runs that meet both cuts in `Witnesses`.
- A received packet starts at the first byte of its entry, so `headroom_mut` leaves the entry:
  `ReceivedHeadroom`. `alloc_pkt` subtracts below zero
  for entries under 32 bytes, which wraps where overflow is not trapped: `AllocFitsExact`.
- `init` that runs out of buffers empties the pool for good: `FailedInitLeaks`.
- `init` documents a panic when there are more queues than `MAX_QUEUES`, which the code does not
  check. The model takes any number. Receive queue `j + 128` would share its registers with transmit
  queue `j`: `RingRegistersExact`.
- `set_ivar` does not mask its vector; `SpillExact` says for which vectors the neighbours survive.
- The lock of `doc/main/phy.rs` never tests SMBI, so it keeps out firmware but not a second software
  agent: `ExclusionExact`.
- The SRRCTL write that selects advanced receive descriptors is commented out
  (`src/igb.rs:684-691`). The model takes the advanced layout of `src/descriptor.rs`.

## Model

| member | source | states |
|---|---|---|
| RingIndex.SizeGuardExact | src/igb.rs:828-831 | the test `n & (n - 1) == 0` accepts exactly the powers of two |
| RingIndex.WrapRingExact | src/igb.rs:28-30 | `wrap_ring` is the successor modulo n on every slot if and only if n is a power of two |
| RingIndex.WrapRingIsOneCycle | src/igb.rs:28-30 | iterating `wrap_ring` from any slot reaches every slot after exactly one number of steps below n, and closes after n |
| Buffers.ExtendIsPushAll | src/igb.rs:209-222 | extending the stack with a batch equals that many successful `free_buf` calls exactly when the ids are distinct entries, none free already |
| Buffers.AllocFitsExact | src/memory.rs:262-265 | for entries of 32 bytes or more the test passes exactly the sizes that fit behind 32 bytes; below, nearly all; it keeps packets in their entries if and only if entries have 32 bytes |
| Buffers.UsePanicsExact | src/memory.rs:77-95 | a use of the pool panics exactly for an id outside it and for a double free |
| Transmit.CanSendExact | src/igb.rs:72-75 | `can_send` holds exactly while fewer than n-1 ids are in flight |
| Transmit.PostWindow | src/igb.rs:347-366 | `send` writes a descriptor without Done in the next slot, and no other in the window changes |
| Transmit.TestedSlot | src/igb.rs:187-207 | the status word a recycling pass reads is that of the 32nd oldest id in flight |
| Transmit.BatchReadyExact | src/igb.rs:187-208 | a pass frees a batch exactly when all of the 32 oldest descriptors in flight are completed |
| Transmit.BatchWindow | src/igb.rs:209-224 | whichever drain branch runs, exactly the 32 oldest ids leave and the ring's counters stay consistent |
| Transmit.RecycleFrees | src/igb.rs:178-231 | with the NIC working during the call: every whole batch complete at the last status read is freed, oldest ids first, and nothing else |
| Transmit.RecycleExact | src/igb.rs:184-228 | whatever the NIC does meanwhile: exactly 32 * floor(k / 32) ids for k descriptors completed at the last status read, clean index moved by as many slots, tail and tx_index untouched; nothing else changed if the NIC is quiet |
| Transmit.AsI32Exact | src/igb.rs:188-192 | the cast to `i32` is the one signed 32-bit number congruent to the index |
| Transmit.CleanableIsInFlight | src/igb.rs:187-192 | the loop's measure, computed through `i32`, is the number of ids in flight |
| Transmit.LargeRingRecovers | src/igb.rs:187-200 | for n of 64 or more, a full and completed ring gets n-32 slots back in one call and can send again, whatever the NIC does meanwhile |
| Transmit.SmallRingNeverReady | src/igb.rs:187-200 | on 32 slots or fewer no pass ever frees anything |
| Receive.CanRecvExact | src/igb.rs:53-59 | `can_recv` holds exactly while a completed frame waits to be delivered |
| Receive.MissingEopPanics | src/igb.rs:264-266 | a frame that does not end in its buffer makes the call panic, free buffers or not |
| Receive.MovedExact | src/igb.rs:304-307 | `rx_index != last_rx_index` holds if and only if the call delivered a packet |
| Receive.PassDelivers | src/igb.rs:255-298 | a pass delivers exactly when a completed frame and a free buffer are there, and arms the slot with the fresh buffer |
| Receive.ReceiveCount | src/igb.rs:233-310 | for any closure that gives back only what it has and any NIC activity: no panic, entries stay apart, and the call stops only with the budget spent, every frame delivered that is complete at the last status read, or no free buffer |
| Receive.ReceiveExact | src/igb.rs:249-309 | whatever the NIC does meanwhile: min(budget, done, free) packets if all are kept, min(budget, done) if all are dropped and a buffer is free, with done counted at the last status read |
| Preservation.StepKeeps | src/igb.rs:178-375 | every allowed step of client, driver and NIC keeps the invariant and does not panic; what each step answers is in the rows of `Answers` |
| Preservation.RunKeeps | src/igb.rs:178-375 | so does every run |
| Guarantees.BufferConservation | src/memory.rs:77-95 | after every run each entry of each pool is in exactly one of the five places, and no place holds anything else |
| Guarantees.NoPanic | src/memory.rs:82-95 | in no run does a double free, an id outside the pool, a missing EOP or an index out of range occur |
| Guarantees.TransmitFifo | src/igb.rs:314-375 | the wire carries a prefix of the accepted packets, each once, with the bytes they had at `send`, whole exactly below 2^16 bytes; never more than n-1 in flight |
| Guarantees.TxCoupling | src/igb.rs:334-366 | ids in flight are as many as `clean_index` lags behind, the pool is set while there are any, Done is set exactly from `clean_index` to the write-back index |
| Guarantees.FlightBacksSlot | src/igb.rs:347-366 | the j-th id in flight backs slot (clean_index + j) mod n: until the NIC writes the descriptor back, it points into the entry, which holds the frame |
| Guarantees.NoEarlyReclaim | src/igb.rs:187-226 | ids recycled are the 32 oldest, and all 32 frames are on the wire and written back |
| Guarantees.BatchIsFreeBuf | src/igb.rs:209-222 | the raw extension of the stack is what 32 successful calls of `free_buf` would have done |
| Guarantees.SmallRingStarves | src/igb.rs:26-26 | on rings of at most 32 slots `clean_index` stays 0 in every run and the queue is full for good after n-1 sends |
| Guarantees.ReceiveFifo | src/igb.rs:233-310 | the closure gets a prefix of the frames the NIC wrote, in order, each once, unaltered, whole exactly below 2^15 bytes |
| Guarantees.PacketsUndisturbed | src/igb.rs:273-294 | a packet in the client's hands keeps its bytes in memory through any steps that are not the client's own on it |
| Guarantees.RxWindow | src/igb.rs:253-307 | between calls RDT is rx_index - 1 mod n, Done is set exactly from rx_index to the write-back index, undone slots hold their buffer's address, the NIC owns no undelivered frame |
| Isolation.DmaDisjoint | src/igb.rs:273-294 | in every run the regions of any two armed descriptors are disjoint, lie in one entry, and meet no client packet and no free or detached entry; armed are receive slots without Done, also beyond the tail, and transmit slots posted and not written back, also fetched ones |
| Isolation.SendMixesExact | src/igb.rs:334-345 | an accepted packet keeps the buffers conserved if and only if its pool is that of the ids in flight |
| Isolation.ConstructExact | src/igb.rs:114-125 | constructing from an entry keeps the invariant if and only if the entry was detached and the packet ends inside it |
| Isolation.AllocatedHeadroom | src/memory.rs:237-240 | an allocated packet has its 32 bytes of headroom inside its entry |
| Isolation.ReceivedHeadroom | src/memory.rs:237-240 | a received packet has no headroom inside its entry |
| Calls.RecycleIsRun | src/igb.rs:178-231 | a whole recycling call with the NIC active is a run of the step machine with exactly the specified ring and stack, also on a queue that has no pool yet |
| Calls.ReceiveIsRun | src/igb.rs:233-310 | from any reachable state a whole receive call, with the NIC active and any lawful closure, is a run with exactly the specified ring and pool; as many frames of the stream are logged as packets given, of the lengths shown; it does not panic |
| Calls.ReachableReceive | src/igb.rs:233-310 | between calls of every run a receive call with any lawful closure does not panic and stops for one of its three reasons |
| Calls.ReachableReceiveCount | src/igb.rs:249-309 | the exact receive counts hold between calls of every run, whatever the NIC does during the call |
| Calls.ReachableRecycle | src/igb.rs:184-228 | the exact recycling count holds between calls of every run, whatever the NIC does during the call |
| Calls.ReachableRecovery | src/igb.rs:184-228 | a full, completed queue of 64 slots or more recovers between calls of every run |
| Answers.AllocAnswer | src/igb.rs:85-91 | `alloc` takes the top entry, 32 bytes in, with the size asked for, exactly when it fits and an entry is free, and otherwise changes nothing |
| Answers.DropAnswer | src/memory.rs:186-190 | a drop puts the entry on the stack, takes the packet away, and changes nothing else |
| Answers.SendRefused | src/igb.rs:314-323 | `send` to a missing queue, or with n-1 packets in flight, frees the packet and changes nothing else |
| Answers.SendAccepted | src/igb.rs:325-375 | with fewer in flight `send` writes the next descriptor, not done and with the u16 length, appends the id, takes the packet's pool and moves the tail register one slot on; nothing else changes |
| Answers.RecycleCall | src/igb.rs:178-231 | the whole call from an idle driver: nothing on a missing queue, else a run to the specified ring and stack |
| Answers.CanReceiveNow | src/igb.rs:378-384 | in every reachable idle state `can_receive` says whether a completed frame waits |
| Answers.ReceiveEntry | src/igb.rs:241-254 | not ready, with nothing changed, exactly on a missing queue and when no completed frame waits; otherwise the loop begins with the whole budget |
| Answers.ReceiveCall | src/igb.rs:233-310 | the whole call from an idle driver, NIC active before the test of `can_recv` and before every later status read: a run that contains the call with its budget and ends in the specified ring, pool and log, or, not ready, in what the NIC did |
| Answers.ShowAnswer | src/igb.rs:268-294 | with budget, a waiting frame and a free entry the closure is shown the oldest waiting frame, cut to fifteen bits of length, in a packet at the start of its entry |
| Answers.PanicsExact | src/memory.rs:82-95 | the steps panic exactly on ids outside the pool, double frees and frames without EOP, in any state |
| Witnesses.BootedIsGood | src/igb.rs:401-443 | a device initialised over fresh pools is in the invariant with empty queues: the start of the runs below |
| Witnesses.SmallRingFills | src/igb.rs:187-200 | a run from start-up in which a ring of 2 to 32 slots takes n-1 packets, all complete, and is full between any two calls of any run after |
| Witnesses.LargeRingCycles | src/igb.rs:187-228 | a run in which a ring of 64 slots or more fills, completes, is recycled once and can send again |
| Witnesses.MixingReached | src/igb.rs:334-345 | a run of two packets from two pools after which the next `send` loses a buffer |
| Witnesses.MixMisroutes | src/igb.rs:209-222 | after mixing with 31 or more in flight, a run in which one recycling call puts an id of the older pool on the newer pool's stack, the older pool's stack stays as it was, and no place holds that entry any more |
| Witnesses.MisroutingReached | src/igb.rs:334-345 | such a mix is reached from start-up |
| Witnesses.FreeEntryConstructed | src/igb.rs:114-125 | right after start-up `construct` on a free entry breaks conservation |
| Witnesses.LongFrameReceived | src/descriptor.rs:142-144 | a run in which a frame of 2^15 bytes or more is delivered cut, in a packet without headroom |
| Witnesses.LongPacketSent | src/igb.rs:357-357 | a run in which a packet of 2^16 bytes or more goes out cut |
| Witnesses.TwoPoolsGood | src/memory.rs:53-71 | fresh pools as these runs need them exist, for every entry size from 32 on and every number of entries |
| Startup.InitExact | src/igb.rs:401-443 | `init` succeeds if and only if the ring size is a power of two (or no queue asks) and the receive rings fit into the free entries; the size is checked first |
| Startup.InitEstablishes | src/igb.rs:613-619 | a successful `init` establishes the invariant |
| Startup.InitSlots | src/igb.rs:822-890 | slot by slot: receive descriptors hold the address of their entry and nothing else, RDT at n-1; transmit descriptors are cleared, all indices and registers 0 |
| Startup.FreshInit | src/igb.rs:822-869 | from fresh pools queue q slot i gets entry entries-1-(q*n+i), all of them different, and the invariant holds in every run from there |
| Startup.FailedInitLeaks | src/igb.rs:838-841 | a failed `init` conserves the buffers if and only if it failed on the ring size or nothing was free |
| Startup.FailedInitLeaves | src/igb.rs:828-841 | on a wrong size nothing is taken; out of memory the pool's stack is empty; nothing else changes |
| MemPools.MemPool.Allocate | src/memory.rs:39-74 | refused unless entries tile a huge page; otherwise every entry free, in order, with the address of its own memory |
| MemPools.EntrySizesExact | src/memory.rs:15-48 | the accepted entry sizes are exactly the powers of two up to 2 MiB |
| MemPools.MemPool.AllocBuf | src/memory.rs:77-79 | takes the top of the stack |
| MemPools.MemPool.FreeBuf | src/memory.rs:82-95 | pushes, or panics exactly for ids outside the pool or free already |
| MemPools.MemPool.Use | src/memory.rs:77-95 | a client's takings and returnings in any order do to the stack what the pool model says, with its panics |
| Buffers.UsesKeep | src/memory.rs:77-95 | a client that gives back only what it has never makes the pool panic, and free, owned and other entries stay apart |
| MemPools.VirtualEntriesApart | src/memory.rs:103-111 | the addresses `get_virt_addr` yields keep entries apart and inside the pool, and the id can be read off any address of its entry |
| MemPools.AllocPkt | src/memory.rs:262-276 | a packet behind the headroom of the top free entry, or no memory with the stack unchanged |
| MemPools.Construct | src/igb.rs:114-125 | a packet of any length from any id of the pool, a panic outside it |
| MemPools.Clone | src/memory.rs:157-164 | a fresh packet with a copy of the bytes and nothing else written, or a panic when no packet can be allocated |
| MemPools.DropBuf | src/memory.rs:186-190 | dropping frees the entry, with the panics of `free_buf` |
| MemPools.LinearMapKeepsApart | src/memory.rs:53-60 | under a linear address map the physical ranges of entries do not overlap |
| Igb.IgbTxQueue.CanSend | src/igb.rs:72-75 | the queue's test is the one of the ring model |
| Igb.IgbTxQueue.RecycleTxBuffers | src/igb.rs:178-231 | the loop in place leaves ring and stack as the specification says, whatever the NIC does before each status read |
| Igb.IgbTxQueue.Send | src/igb.rs:314-375 | full: refused and the packet freed, queue unchanged; else posted, tail written, the queue takes the packet's pool |
| Igb.IgbTxQueue.Start | src/igb.rs:872-890 | size check, registers at 0 |
| Igb.IgbRxQueue.CanRecv | src/igb.rs:53-59 | the Done bit at rx_index |
| Igb.IgbRxQueue.Start | src/igb.rs:822-869 | arms every slot from the top of the stack downwards, or fails with the stack unchanged (size) or empty (no memory) |
| Igb.IgbRxQueue.ReceivePackets | src/igb.rs:233-310 | the loop in place hands out, returns and leaves behind what the specification says, for any use the closure makes of the pool and any NIC activity |
| Device.IgbDevice.Init | src/igb.rs:541-645 | builds and starts the queues with exactly the values of `Startup.Init`, or fails with its error and stack |
| Device.IgbDevice.Send | src/igb.rs:314-318 | a packet for a queue that does not exist is freed |
| Device.IgbDevice.RecycleTxBuffers | src/igb.rs:178-182 | the error for a queue that does not exist, else the queue's own contract |
| Device.IgbDevice.ReceivePackets | src/igb.rs:241-250 | the errors for a missing queue and an empty ring, else the queue's own contract |
| Device.IgbDevice.CanReceive | src/igb.rs:378-384 | the queue's answer or the error |
| Device.IgbDevice.CanSend | src/igb.rs:387-393 | the queue's answer or the error |
| Descriptors.AdvancedTxDescriptor.Send | src/descriptor.rs:199-207 | whatever was there, the word reads len, DTYP_DATA, EOP, IFCS, RS, DEXT; bits 14 to 31 of the second word are the length, bits 0 to 13, Done among them, clear |
| Descriptors.AdvancedTxDescriptor.Init | src/descriptor.rs:185-191 | all fields cleared |
| Descriptors.PaylenBits | src/descriptor.rs:199-207 | for every u16 length PAYLEN (bits 14 to 31) is the length, all lower bits are 0, and the word is 2^14 times the length |
| Descriptors.DoneIsBitZero | src/igb.rs:204-209 | the status test reads bit 0 |
| Descriptors.CommandBits | src/constants.rs:4153-4182 | the byte fields make up the 32-bit layout word for every length |
| Descriptors.CastIsMod | src/igb.rs:357-357 | the cast to u16 is the length modulo 2^16 |
| Descriptors.DecodeWriteBack | src/constants.rs:4118-4132 | length, status byte, Done (bit 0) and EOP (bit 1) are recovered from the write-back word whatever the other fields hold |
| Descriptors.FifteenBits | src/descriptor.rs:142-144 | the length getter yields the written length modulo 2^15 |
| Descriptors.AdvancedRxDescriptor.LengthSeen | src/descriptor.rs:87-89 | so does `length()`, as the ring model takes it |
| Descriptors.AdvancedRxDescriptor.SetPacketAddress | src/descriptor.rs:67-69 | only the address changes |
| Descriptors.AdvancedRxDescriptor.ResetStatus | src/descriptor.rs:72-74 | status, Done, EOP and length are cleared, the address kept |
| Registers.RingRegistersExact | src/constants.rs:394-445 | two ring registers coincide only if they are the same one, or for receive queue j+128 and transmit queue j |
| Registers.RingRegisterMap | src/constants.rs:739-762 | the addresses of the registers of queue 0 of both kinds, and 0x40 from queue to queue |
| Registers.SetIvarBytes | src/igb.rs:1092-1101 | of all bytes of all registers one call changes only bits 16 * (queue mod 2) + 8 * direction up to 8 more of register 0x900 + 4 * (queue / 2), which become vector with bit 7 set |
| Registers.IvarBytes | src/igb.rs:1092-1101 | the same for any sequence of calls, byte by byte |
| Registers.SetIvarEntry | src/igb.rs:1092-1101 | one call sets its own entry, read at those literal bit positions, and leaves every other as it was |
| Registers.IvarRefinesTable | src/igb.rs:1092-1101 | after any sequence of calls the packed registers hold the table from (queue, direction) to vector with bit 7 set |
| Registers.SpillExact | src/igb.rs:1092-1101 | the other bytes survive every call exactly when no bit of the vector lands above its own byte |
| Registers.Mmio.SetFlags32 | src/igb.rs:1045-1047 | the flags are set in one register, no other changes |
| Registers.Mmio.ClearFlags32 | src/igb.rs:1050-1052 | the flags are cleared in one register, no other changes |
| Registers.Mmio.SetIvar | src/igb.rs:1092-1101 | the code's read, mask, shift and write change exactly those bits of that register |
| PhySync.RunKeeps | doc/main/phy.rs:77-109 | with one software agent every run keeps the halves of SW_FW_SYNC disjoint and the software half equal to the live masks |
| PhySync.SyncGuarded | doc/main/phy.rs:92-109 | SW_FW_SYNC changes only under the semaphore, by whoever has it |
| PhySync.DropClearsOwn | doc/main/phy.rs:99-109 | dropping a `Synced` clears exactly its own software bits |
| PhySync.TwoAgentsClash | doc/main/phy.rs:115-129 | a run in which two software agents own one resource |
| PhySync.ExclusionExact | doc/main/phy.rs:115-139 | mutual exclusion in all runs if and only if there is a single software agent |
| Phy.CallIsRun | doc/main/phy.rs:77-109 | a call driven by any schedule of firmware activity is a run of the lock's step machine |
| Phy.Device.SemaphoreNew | doc/main/phy.rs:115-129 | the loop goes exactly where the schedule drives the machine, gives up only with the schedule, and succeeds at the first try with firmware quiet and not holding the semaphore |
| Phy.Device.SyncedNew | doc/main/phy.rs:77-96 | ends exactly where the driven machine ends and gives up only with the schedule; with firmware quiet returns if and only if the mask is free on both sides; then the mask is marked, belongs to no other live value and not to firmware, and the semaphore is free |
| Phy.Device.SyncedDrop | doc/main/phy.rs:99-109 | likewise, returning with firmware quiet; then the driver's half is exactly what the other live masks cover |

## Left out

- Time: that the waiting loops on registers end (`wait_set_reg32`, `wait_clear_reg32`, `wait_for_link`) is assumed; the loops of `Semaphore::new` and `Synced::new` may spin for ever, and `Phy.Device` then reports that they have not finished.
- Register access: volatile reads and writes at addresses, and the panic of `get_reg32` and `set_reg32` outside the mapped range.
- The register writes of `init_rx` and `init_tx` that configure packet buffers, checksums and thresholds; only the rings' own head and tail registers are modelled.
- A NIC that splits a frame over several buffers: the panic on a missing EOP is a branch of the code model, excluded in runs by what is assumed of the NIC.
- Receive.ReceiveCount: the closure is what it does with the queue's pool; what it does to the bytes of its packets, and to other pools, is not part of the ring model but of `System`, where any client step may come between showing a packet and arming its slot.
- Igb.IgbRxQueue.ReceivePackets: likewise for the closure.
- Device.IgbDevice.ReceivePackets: likewise for the closure.
- Igb.IgbTxQueue.Send: the queue holds descriptors as values of the ring model; `Descriptors` proves that the packed fields have that value.
- MemPools.Clone: not a step of `System`; there it is an allocation followed by a write of the client.
- Phy.Device.SemaphoreNew: bits of SWSM other than SWESMBI are not modelled; clearing SMBI in the drop has no effect on what is proved.
- Sharing of pools between threads: the driver's calls run one at a time, as they take the device by mutable reference; NIC and firmware run at any time.
- DMA allocation for rings and pools and its failure: ring memory is taken to be there and apart from all entries.
- Link and PHY setup, MAC address, statistics, promiscuous mode, interrupt masking and the `irq` feature: single register accesses without state of their own.
- Logging, pretty-printing, prefetching, and the getters for header, RSS and VLAN fields.
- The other constants of `src/constants.rs`, which this driver does not use.
