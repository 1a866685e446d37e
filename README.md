# ssmp in Dafny

ssmp is a shared-memory message-passing library for many-core machines.
Every ordered pair of endpoints (processes pinned to cores) shares a
one-cache-line mailbox. The mailbox's state byte is EMPTY, MESSG or LOCKD,
and all waiting is busy polling. Around the mailboxes the library adds:

- colour buffers, which are filtered views of the peers a receiver polls;
- a ticket barrier with two phases;
- bulk transfer through a one-chunk buffer per endpoint;
- a broadcast;
- a few arithmetic helpers.

The code supports two architectures (x86 and SPARC) and two platforms
(Xeon and Niagara).

This project models that core. Every cross-process step is one atomic
transition on shared state. The busy-wait in front of a step becomes that
step's precondition. The shared region is a set of Dafny arrays:

- mailbox lines: `array<Line>`;
- chunk buffers: `array<Chunk>`;
- the barrier table: `array<Barrier>`.

The per-process globals that `ssmp_mem_init_platf` fills in form the class
`Context.Endpoint`. Its two address tables `ssmp_recv_buf` and
`ssmp_send_buf` become maps from a peer id to the index of that peer's
mailbox cell.

Modules, in dependency order:

- `Wrappers`: `Option`.
- `Msg`: the message line, the chunk record, the slot states, `SSMP_CHUNK_SIZE` and `memcpy64` of `include/ssmp_sparc.h`.
- `Ssmp`: the helpers of `src/ssmp.c`.
- `Arith`, `Layout`: division facts, cache-line padding and the offsets of the shared region.
- `Context`: the endpoint.
- `Poll`: what receives wait for, and the cyclic cursor order.
- `X86Arch`, `SparcArch`: mailbox addressing and `mem_init` of the two architecture files.
- `ColorBuf`: `ssmp_color_buf_init_platf`.
- `Barrier`: barrier init and wait, and the protocol invariant.
- `Xeon`, `Niagara`: the two platform files.
- `Bulk`: `send_big` / `recv_from_big`.
- `Broadcast`: `ssmp_broadcast`.

Layouts. The x86 code gives each receiver a segment of n − 1 lines, one
per peer. The model lays these segments end to end, so receiver r's segment
starts at cell r · (n − 1). The SPARC architecture keeps one n × n grid at
the start of the region.

Facts about the code that shape the model:

- Chunk buffers are indexed by the sender. `send_big` fills `ssmp_chunk_buf[ssmp_id_]` and `recv_from_big` drains `ssmp_chunk_buf[from]`.
- The x86 mailboxes are not an n × n grid. Each receiver has its own segment of n − 1 lines.
- The Xeon colour receives test the socket of the buffer index, not of the peer behind it (`Xeon.SocketTestUsesIndex`). Under the record layout assumed for Xeon (see "## Left out"), this changes only which lock is taken, never what is received.

Constants that come from `ssmp.h`, which is not part of this model, are
chosen as follows:

- EMPTY = 0: `mem_init` resets a slot by storing 0.
- MESSG = 1 and LOCKD = 2.
- The number of barriers is the length of the barrier array.
- The cache-line size is a parameter.
- `SSMP_INC_ALIGN` rounds up to the cache line.

## Model

| member | source | states |
|---|---|---|
| Msg.ChunkSize | include/ssmp_sparc.h:38-42 | SSMP_CHUNK_SIZE is 1024 exactly on sparcv8 and 8192 otherwise |
| Msg.Memcpy64Small | include/ssmp_sparc.h:127-132 | with SPARC_SMALL_MSG the copy sets dst[0] and dst[1] to src[0] and src[1] and leaves every other word, whatever the count |
| Msg.Memcpy64Words | include/ssmp_sparc.h:133-138 | without SPARC_SMALL_MSG the first `dwords` words come from src in order and the rest of dst is unchanged |
| Msg.Memcpy64 | include/ssmp_sparc.h:127-132 | the two stores leave the array equal to Memcpy64Small of its old contents |
| Msg.Memcpy64Loop | include/ssmp_sparc.h:134-138 | the word loop leaves the array equal to Memcpy64Words of its old contents |
| Ssmp.ColorApp | src/ssmp.c:91-95 | ssmp_color_app returns 1 iff id % 3 != 0 and 0 otherwise, C's truncating remainder included |
| Ssmp.TenfoldColor | src/ssmp.c:110-114 | `color` is non-zero exactly for non-zero ids and is then at least 10 in magnitude, so it is not a 0/1 flag |
| Ssmp.GetBarrierAsWritten | src/ssmp.c:97-108 | the lookup as written returns an offset iff barrier_num < the table size, negative numbers included |
| Ssmp.GetBarrier | src/ssmp.c:97-108 | the corrected lookup returns slot n iff 0 <= n < the table size, and NULL otherwise |
| Ssmp.GetBarrierAsWrittenEscapes | src/ssmp.c:100 | for barrier -1 the as-written lookup returns the offset -1 where the corrected one returns NULL |
| Ssmp.GetBarrierAgrees | src/ssmp.c:100 | on non-negative barrier numbers both lookups return the same result |
| Ssmp.Pow2RoundUp | src/ssmp.c:197-210 | pow2roundup(0) is 1; for 1 <= x <= 2^31 the result is a power of two with x <= r < 2x; a power of two is returned unchanged; above 2^31 the uint32 result wraps to 0 |
| Ssmp.WaitTargetMeaning | src/ssmp.c:140-149 | when there is no overflow the target is start + cycles − 2·correction if cycles > 2·correction, and the loop then spins at the start; otherwise the target is 0 and no tick reading keeps the loop spinning |
| Layout.RoundUp | src/arch/x86/ssmp_arch.c:318-322 | the x86 padding gives the next multiple of the cache line at or above s, and leaves s when it is already a multiple |
| Layout.RoundUpIsLeast | src/arch/x86/ssmp_arch.c:318-322 | no multiple of the line at or above s is smaller than the padded size |
| Layout.SparcPad | src/arch/sparc/ssmp_arch.c:236-240 | the SPARC padding adds less than one line and a whole number of elements, and leaves s when it is already a multiple |
| Layout.SparcPadAgrees | src/arch/sparc/ssmp_arch.c:236-261 | when the element size divides the line, the SPARC padding of count·unit bytes equals the x86 rounding |
| Layout.Sections | src/arch/x86/ssmp_arch.c:59-107 | the shared region holds the mailboxes, then the barrier table, the initialised flags and the chunk buffers, each section padded by less than a line to a whole number of lines; the size is the sum of the sections |
| X86Arch.RecvSlotBijection | src/arch/x86/ssmp_arch.c:188 | the slot a receiver computes for a peer lies in 0 .. n − 2, and every slot belongs to exactly one peer other than the receiver |
| X86Arch.RecvSlotInjective | src/arch/x86/ssmp_arch.c:188 | distinct senders get distinct slots in a receiver's segment |
| X86Arch.SlotsAgree | src/arch/x86/ssmp_arch.c:188-240 | the slot sender id writes in receiver core's segment is the slot receiver core reads for sender id |
| X86Arch.CellsAgree | src/arch/x86/ssmp_arch.c:188-240 | a sender's send cell for a receiver is that receiver's receive cell for the sender, inside the receiver's segment |
| X86Arch.CellsInjective | src/arch/x86/ssmp_arch.c:188 | no two ordered pairs of distinct endpoints share a mailbox |
| X86Arch.TablesWellFormed | src/arch/x86/ssmp_arch.c:179-241 | both tables of an endpoint name cells inside the n·(n − 1) mailboxes, and distinct peers get distinct send cells |
| X86Arch.RegionLayout | src/arch/x86/ssmp_arch.c:59-107 | the x86 region starts with the barrier table and lays out its sections as Layout.Sections does |
| X86Arch.MemInit | src/arch/x86/ssmp_arch.c:120-241 | mem_init sets id, n and last_recv_from. With one endpoint it leaves the tables empty and the region untouched. Otherwise it fills both tables with every peer's cell, resets all chunk states and the states of exactly the caller's n − 1 incoming slots, and changes no other cell |
| X86Arch.InitOwnSegment | src/arch/x86/ssmp_arch.c:179-190 | the first loop builds the receive table, clears every chunk state and clears exactly the caller's segment |
| X86Arch.InitSendTable | src/arch/x86/ssmp_arch.c:199-241 | the second loop builds the send table |
| SparcArch.CoreToIdFinds | src/arch/sparc/ssmp_arch.c:36-47 | every core 0 .. 63 appears in id_to_core, at the position CoreToId gives |
| SparcArch.CoreToIdUndoes | src/arch/sparc/ssmp_arch.c:36-47 | CoreToId inverts id_to_core |
| SparcArch.IdToCoreIsPermutation | src/arch/sparc/ssmp_arch.c:36-47 | id_to_core has 64 entries and lists every core 0 .. 63 exactly once |
| SparcArch.CellsAgree | src/arch/sparc/ssmp_arch.c:163-166 | sender s's send cell for r, r·n + s, is receiver r's receive cell for s, and it lies inside the n·n grid |
| SparcArch.CellsInjective | src/arch/sparc/ssmp_arch.c:163-166 | distinct (receiver, sender) pairs have distinct cells |
| SparcArch.TablesWellFormed | src/arch/sparc/ssmp_arch.c:159-167 | both tables point into the grid, and distinct peers get distinct send cells |
| SparcArch.RegionLayout | src/arch/sparc/ssmp_arch.c:78-130 | the SPARC region holds the n·n mailboxes first and then the aligned barrier table, flags and chunk buffers, and its size is the sum of the four |
| SparcArch.MemInit | src/arch/sparc/ssmp_arch.c:143-169 | mem_init sets id, n and last_recv_from. It fills both tables for every endpoint, self included. It resets the states of exactly the caller's n grid cells, and only the caller's own chunk state |
| SparcArch.InitGrid | src/arch/sparc/ssmp_arch.c:158-167 | the mem_init loop builds both tables and clears exactly row id of the grid |
| Context.Endpoint.constructor | src/arch/x86/ssmp_arch.c:37-48 | before mem_init the per-process globals are zero and the tables are empty |
| Poll.ScanStart | src/platform/xeon/ssmp_platf.c:203-235 | a scan starts at the cursor when it is in range, and otherwise at 0 |
| Poll.NextCursorIsSuccessor | src/platform/xeon/ssmp_platf.c:228-231 | the next scan starts at the entry just after the one served |
| Poll.CursorProgress | src/platform/xeon/ssmp_platf.c:203-235 | serving the nearest ready entry brings every entry further away exactly that far plus one closer |
| Poll.BoundedWaiting | src/platform/xeon/ssmp_platf.c:193-237 | while an entry stays ready, fewer than num other entries are served before it |
| ColorBuf.SelectedSpec | src/arch/x86/ssmp_arch.c:297-364 | the selected peers are exactly the ids below n, other than the caller, whose colour is non-zero as a uint32; they are strictly ascending and never include the caller |
| ColorBuf.SelectedFromCount | src/arch/x86/ssmp_arch.c:297-313 | num_ues equals the number of other ids whose colour is non-zero |
| ColorBuf.PaddedSize | src/arch/x86/ssmp_arch.c:315-344 | on both architectures each array's allocation is the array's byte size rounded up to whole cache lines |
| ColorBuf.Init | src/arch/x86/ssmp_arch.c:283-367 | num_ues is the number of selected peers; for each k, from[k] is the k-th selected id (as a uint8_t), buf[k] is that peer's receive cell and buf_state[k] names the same cell; the allocation sizes are the padded sizes |
| ColorBuf.MarkParticipants | src/arch/x86/ssmp_arch.c:297-311 | participants[k] is non-zero iff k is not the caller and its colour is non-zero, and the count is the number of selected peers |
| ColorBuf.Gather | src/arch/x86/ssmp_arch.c:354-364 | the second loop lists the marked peers in id order with their receive cells |
| Barrier.HighIdsExcluded | src/arch/x86/ssmp_arch.c:423-429 | with the mask, an id from 64 on never takes part, because its bit has been shifted out |
| Barrier.AllOnesMembers | src/arch/x86/ssmp_arch.c:385-429 | with the all-ones mask exactly the ids below 64 take part |
| Barrier.NumPartCountsMembers | src/arch/x86/ssmp_arch.c:410-431 | for a mask or a 0/1 colour, num_part is the number of participants |
| Barrier.ColorAppCounts | src/arch/x86/ssmp_arch.c:410-420 | under ssmp_color_app, num_part counts the participants |
| Barrier.TenfoldMiscounts | src/arch/x86/ssmp_arch.c:415 | num_part sums the colour values: under `color` with two endpoints one endpoint takes part but num_part is 10 |
| Barrier.TenfoldNeverOpens | src/arch/x86/ssmp_arch.c:442-446 | under `color` with two endpoints the one arrival does not set cleared |
| Barrier.Init | src/arch/x86/ssmp_arch.c:379-389 | a number in the table resets that barrier to the all-ones mask (the argument is ignored), the given colour, ticket 0 and cleared 0; any other number changes nothing (corrected guard, see ## Findings) |
| Barrier.InitDefaults | src/arch/x86/ssmp_arch.c:109-114 | after setup every barrier has the all-ones mask, ticket 0 and cleared 0, with no colour except barrier 1, which has ssmp_color_app |
| Barrier.CountParticipants | src/arch/x86/ssmp_arch.c:406-431 | the loop reports the caller as a member iff it takes part (the colour takes priority over the mask), and a member gets the uint32 sum of all contributions |
| Barrier.Enter | src/arch/x86/ssmp_arch.c:394-431 | wait continues iff the number is in the table and the caller takes part, and then it goes on with that barrier's num_part |
| Barrier.Arrive | src/arch/x86/ssmp_arch.c:435-446 | once cleared is not 1, the ticket goes up by one (uint32) and the arrival that reaches num_part sets cleared |
| Barrier.Depart | src/arch/x86/ssmp_arch.c:451-462 | once cleared is not 0, the ticket goes down by one (uint32) and the departure that reaches 0 resets cleared |
| Barrier.StartInv | src/arch/x86/ssmp_arch.c:385-388 | a freshly initialised barrier satisfies the round invariant |
| Barrier.ArrivePreserves | src/arch/x86/ssmp_arch.c:435-446 | an arrival keeps the invariant, adds one to the ticket and sets cleared iff everybody has then arrived |
| Barrier.DepartPreserves | src/arch/x86/ssmp_arch.c:451-462 | a departure keeps the invariant, takes one from the ticket and resets cleared iff everybody has then left |
| Barrier.Safety | src/arch/x86/ssmp_arch.c:435-462 | while cleared is set every participant has arrived, and the ticket never exceeds the number of participants |
| Barrier.ConcreteArrive | src/arch/x86/ssmp_arch.c:410-446 | for a mask or 0/1 colour, when the round's participants are its record's members, the arrival with the num_part that wait computes is the round's arrival, and the members are unchanged |
| Barrier.ConcreteDepart | src/arch/x86/ssmp_arch.c:451-462 | when the round's participants are its record's members, the array departure is the round's departure, and the members are unchanged |
| Barrier.StillOpen | src/arch/x86/ssmp_arch.c:451-462 | once someone has left and someone is still waiting, cleared is 1 |
| Barrier.Arrivals | src/arch/x86/ssmp_arch.c:435-446 | any run of arrivals by distinct participants keeps the invariant and adds exactly them to the waiting set |
| Barrier.Departures | src/arch/x86/ssmp_arch.c:451-462 | any run of departures by distinct waiting participants keeps the invariant and moves exactly them to the passed set |
| Barrier.OpenWhenAllWaiting | src/arch/x86/ssmp_arch.c:443-446 | with everybody waiting, cleared is 1 and the ticket is the number of participants |
| Barrier.IdleWhenAllPassed | src/arch/x86/ssmp_arch.c:459-462 | with everybody passed, ticket and cleared are 0 |
| Barrier.AllArrive | src/arch/x86/ssmp_arch.c:435-446 | when every participant arrives, in any order, the barrier opens with ticket = num_part |
| Barrier.AllDepart | src/arch/x86/ssmp_arch.c:451-462 | when every waiting participant leaves, in any order, the barrier is idle again with all participants passed |
| Xeon.Count | src/platform/xeon/ssmp_platf.c:50-60 | the last rows of id_to_core map each id from 80 on to itself |
| Xeon.LowCoresClosedForm | src/platform/xeon/ssmp_platf.c:42-49 | ids 0 .. 39 run on cores 1 .. 40, id 40 on core 0, and ids 41 .. 79 on the core of the same number |
| Xeon.IdToNodeClosedForm | src/platform/xeon/ssmp_platf.c:64-74 | id_to_node has 80 entries: core 0 and cores 41 .. 49 are on socket 4, and every other core is in a block of ten |
| Xeon.CoreLookup | src/platform/xeon/ssmp_platf.c:40-74 | id_to_core maps an id below 256 to a core below 80 exactly when the id is below 80, so the node lookup stays in range exactly then |
| Xeon.NodeIsTenth | src/platform/xeon/ssmp_platf.c:40-84 | the socket of id i through both tables is i / 10 |
| Xeon.SameSocketMeaning | src/platform/xeon/ssmp_platf.c:81-85 | two ids share a socket iff they lie in the same block of ten; hence the test is reflexive and symmetric |
| Xeon.RecvFrom | src/platform/xeon/ssmp_platf.c:91-116 | on a full mailbox the caller gets the line's words, with state MESSG (same socket) or LOCKD (after the swap), and the mailbox becomes EMPTY with nothing else changed |
| Xeon.Recv | src/platform/xeon/ssmp_platf.c:119-146 | the message is taken from the lowest-numbered ready peer other than self, the sender is recorded as that id and only its mailbox is emptied |
| Xeon.ScanFrom | src/platform/xeon/ssmp_platf.c:157-234 | a pass over entries lo .. num_ues − 1 takes the first full entry, recording sender from[i] and emptying only buf[i], or reports none full and changes nothing |
| Xeon.TakeEntry | src/platform/xeon/ssmp_platf.c:159-226 | taking a full entry copies the line with sender from[k] and empties only that cell, whichever lock path the socket test picks |
| Xeon.RecvColor | src/platform/xeon/ssmp_platf.c:148-190 | recv_color takes the lowest full entry, records its sender and empties only that mailbox |
| Xeon.RecvColorStart | src/platform/xeon/ssmp_platf.c:193-237 | recv_color_start serves the nearest full entry in cyclic order from the shared cursor (0 if the cursor is out of range), records its sender, empties only that mailbox and leaves the cursor at (i + 1) mod num_ues |
| Xeon.Send | src/platform/xeon/ssmp_platf.c:277-300 | on an empty mailbox the caller's message is marked MESSG and the whole line lands in the mailbox; no other cell changes |
| Xeon.SendIsFree | src/platform/xeon/ssmp_platf.c:303-308 | the result is true iff a blocking send would not wait, and nothing changes |
| Xeon.SendNoSync | src/platform/xeon/ssmp_platf.c:311-317 | the message overwrites the mailbox with state MESSG, whatever it held |
| Xeon.Delivery | src/platform/xeon/ssmp_platf.c:91-300 | a send from s to r and r's receive from s use the same cell: the receiver's wait ends, it gets the words sent, and the mailbox is EMPTY again |
| Xeon.Isolation | src/platform/xeon/ssmp_platf.c:277-300 | a send from s to r leaves every other ordered pair's mailbox as it was |
| Xeon.SocketTestUsesIndex | src/platform/xeon/ssmp_platf.c:159-205 | the colour receives test the socket of the buffer index: with 11 endpoints, entry 9 of endpoint 0's full buffer is peer 10 on socket 1, while index 9 counts as socket 0 |
| Niagara.RecvFrom | src/platform/niagara/ssmp_platf.c:44-55 | on a full mailbox the two payload words are copied into the caller's message and the mailbox becomes EMPTY; the caller's state/sender byte is kept |
| Niagara.Recv | src/platform/niagara/ssmp_platf.c:57-78 | the lowest-numbered ready peer other than self is served, recorded as the sender, and only its mailbox is emptied |
| Niagara.ScanFrom | src/platform/niagara/ssmp_platf.c:90-137 | a pass over entries lo .. num_ues − 1 takes the first full one, or reports none full and changes nothing |
| Niagara.RecvColor | src/platform/niagara/ssmp_platf.c:82-107 | the lowest full entry i is served, with sender from[i], and only buf[i] is emptied |
| Niagara.RecvColorStart | src/platform/niagara/ssmp_platf.c:110-140 | the nearest full entry in cyclic order from the shared cursor is served, and the cursor is left at (i + 1) mod num_ues |
| Niagara.Send | src/platform/niagara/ssmp_platf.c:183-194 | on an empty mailbox the two payload words are copied and the state is set to MESSG afterwards; the caller's message is untouched |
| Niagara.SendIsFree | src/platform/niagara/ssmp_platf.c:196-201 | the result is true iff the mailbox is EMPTY, and nothing changes |
| Niagara.SendNoSync | src/platform/niagara/ssmp_platf.c:204-210 | the mailbox is overwritten without waiting, with MESSG set after the copy |
| Niagara.Delivery | src/platform/niagara/ssmp_platf.c:44-194 | a send followed by the matching receive delivers the two payload words, keeps the receiver's own state/sender byte and empties the mailbox |
| Niagara.Isolation | src/platform/niagara/ssmp_platf.c:183-194 | a send leaves every other ordered pair's grid cell as it was |
| Bulk.PieceSize | src/platform/xeon/ssmp_platf.c:241-322 | each chunk carries between 1 and SSMP_CHUNK_SIZE bytes |
| Bulk.NumPiecesIsCeiling | src/platform/niagara/ssmp_platf.c:216-247 | a transfer uses ⌈length / SSMP_CHUNK_SIZE⌉ chunks, and none iff length is 0 |
| Bulk.Tiling | src/platform/niagara/ssmp_platf.c:216-247 | the chunks tile the data in order: the first at 0, each after the previous one (full chunks SSMP_CHUNK_SIZE apart), the last ending at length |
| Bulk.BeginInv | src/arch/x86/ssmp_arch.c:179-182 | the handoff invariant holds before either loop starts, the chunk state being 0 |
| Bulk.SenderStepInv | src/platform/xeon/ssmp_platf.c:326-348 | a sender step (fill the buffer while the state is 0, then set 1) keeps the handoff invariant |
| Bulk.ReceiverStepInv | src/platform/xeon/ssmp_platf.c:246-265 | a receiver step (copy out while the state is non-zero, then set 0) keeps the handoff invariant and appends exactly the next chunk |
| Bulk.RunInv | src/platform/xeon/ssmp_platf.c:240-352 | every interleaving of the two loops keeps the handoff invariant |
| Bulk.Complete | src/platform/xeon/ssmp_platf.c:240-270 | once the receiver has taken every chunk it holds exactly the bytes sent, in order |
| Bulk.Progress | src/platform/xeon/ssmp_platf.c:240-352 | until the receiver has every chunk, exactly one side can move, and its move advances the transfer |
| Bulk.PutPiece | src/platform/xeon/ssmp_platf.c:331-345 | the sender's body copies chunk k into the front of its own chunk buffer and sets the state to 1 |
| Bulk.TakePiece | src/platform/xeon/ssmp_platf.c:251-264 | the receiver's body copies chunk k's bytes from chunk_buf[from] to their place in the data, leaves the rest of the data alone and sets the state to 0 |
| Bulk.Exchange | src/platform/niagara/ssmp_platf.c:143-247 | a whole transfer of length bytes leaves the receiver with the data and the rest of its buffer unchanged, the sender's chunk buffer empty again, and every other chunk buffer untouched |
| Broadcast.TargetsMembers | src/ssmp_broadcast.c:43-48 | the ids sent to are exactly those in 0 .. n − 1 other than the caller |
| Broadcast.TargetsOrder | src/ssmp_broadcast.c:43-51 | the sends go in strictly ascending id order, each id once, n − 1 in all |
| Broadcast.PostAllAt | src/ssmp_broadcast.c:43-51 | after the run a target cell holds the message marked MESSG, and any other cell is unchanged |
| Broadcast.PostAllEffect | src/ssmp_broadcast.c:43-51 | the same for every cell at once |
| Broadcast.Broadcast | src/ssmp_broadcast.c:39-52 | the mailbox array ends as the run of sends of the same message to the targets in order, and the caller's message is marked MESSG once any send happened |
| Broadcast.VisitAll | src/ssmp_broadcast.c:43-51 | the loop over the ids 0 .. n − 1 reaches the state after visiting all of them |
| Broadcast.Visit | src/ssmp_broadcast.c:45-50 | one pass sends to the id unless it is the caller, and its mailbox is one no earlier send touched |
| Broadcast.AllVisited | src/ssmp_broadcast.c:43-51 | after every id is visited exactly the targets have been sent to, in their order |

## Left out

- Concurrency itself is not modelled: memory fences, the interleavings of the spin loops, and the atomicity of compare-and-swap and fetch-and-add. Each step is one atomic transition, and its busy-wait is its precondition. Liveness is proved only for the bulk handoff (`Bulk.Progress`) and as bounded waiting for the cursor (`Poll.BoundedWaiting`).
- Shared memory plumbing is not modelled (`shm_open`, `ftruncate`, `mmap`, `shm_unlink`, `memalign`, `malloc`, `free`). Nor are the startup rendezvous over `ues_initialized` and the `ssmp_barrier_wait(0)` inside the x86 `mem_init`, CPU pinning, or the `cbuf == NULL` and allocation-failure exits. They are operating-system calls, and the arrays and maps stand in for the memory they provide.
- `ssmp_color_buf_free_platf` is not modelled: it only releases the three arrays, which are values here.
- Cycle counters, `getticks_correction_calc` and `wtime` are not modelled; they read hardware clocks and compute floating-point averages. `wait_cycles` is modelled only through its target and spin condition (`Ssmp.WaitTarget`), since the clock it reads is not visible.
- The `USE_ATOMIC == 1` variant of the Xeon `recv` is not modelled; it is a compile-time alternative that is off by default.
- `ssmp.h` is not part of this model. It defines the slot state values, `SSMP_NUM_BARRIERS`, `SSMP_CACHE_LINE_SIZE`, `SSMP_INC_ALIGN`, `ssmp_chunk_t` and the x86 `ssmp_msg_t`, so their values are the choices stated above; the Xeon operations use the message record of `include/ssmp_sparc.h` in its place.
- The Tilera platform and architecture files are not modelled, and neither is `include/ssmp_tile.h`: they wrap a hardware messaging library that is not visible.
- The one-line delegations in `src/ssmp_send.c` and `src/ssmp_recv.c`, the profiling macros and the benchmarks are not modelled; the model covers the `_platf` functions directly.
- Byte counts are unbounded integers: the `size_t` to `int` conversion of `length` in the bulk functions and the `uint32_t` size arithmetic of the region layout are not modelled as wrapping.
- The caller's message buffer is a value passed in and out, not an address, so the model does not capture a message buffer that aliases a mailbox.
- `last_recv_from` is set by `mem_init` and read by no core operation.
- The `to` argument of `send_big` is unused by the code, so the model has no parameter for it.
- Xeon.SameSocket: requires both ids below 80. `id_to_node` has 80 entries, and the code reads past it for larger ids.
- Xeon.RecvFrom: requires the caller's id and `from` below 80, for the same table bound.
- Xeon.Send: requires the caller's id and `to` below 80, for the same table bound.
- Xeon.ScanFrom: requires `num_ues <= 80`, because the socket test is applied to the buffer index (the same bound applies to Xeon.TakeEntry, Xeon.RecvColor and Xeon.RecvColorStart).
- Xeon.Recv, Xeon.RecvColor, Xeon.RecvColorStart, Xeon.Send: the x86 `ssmp_msg_t` is defined in the unseen `ssmp.h`, so these operations assume the record of include/ssmp_sparc.h:69-73, whose `state` and `sender` share one `uint8_t` union (`Msg.Line.tag`). Under that layout recording the sender (`tag := from % 256` in Xeon.Recv, `from[i]` in the colour receives) overwrites the LOCKD or MESSG state, and marking a sent message MESSG (Xeon.Send) overwrites its sender. The model does not capture a layout in which the two fields are separate; there the received line would keep its state (MESSG or LOCKD, depending on the lock path the socket test picks) and the sent line its sender.
- Niagara.RecvFrom: requires every line to hold the two double words `memcpy64` moves, which the record layout guarantees (the same holds for the other Niagara operations).
- Broadcast.Broadcast: requires the send table that `mem_init` builds, and that every target mailbox is empty when the broadcast starts. This is weaker than the code, which waits for each mailbox in turn while receivers run concurrently; here each send's wait must already be satisfied. The broadcast is modelled over the Xeon send only.
- Bulk.Exchange: runs the two loops in the one alternation the handoff forces, within one method. Each side's loop body is `Bulk.PutPiece` or `Bulk.TakePiece`, and every other interleaving is covered by `Bulk.RunInv` over the step functions. No single method runs one side's whole loop on its own, because the other side has to run between its iterations.
- Barrier.Enter: covers the part of `barrier_wait` before the first spin. The two spins and the atomic updates are the separate steps `Barrier.Arrive` and `Barrier.Depart`, and the whole protocol is proved over the abstract `Barrier.Round`, which `Barrier.ConcreteArrive` and `Barrier.ConcreteDepart` tie to the record's members and to the num_part that `Barrier.Enter` returns.

## Findings

| source | as written | input that shows it | evidently intended | confidence | as-written member | corrected member |
|---|---|---|---|---|---|---|
| src/ssmp.c:100 | `ssmp_get_barrier` guards with `barrier_num < SSMP_NUM_BARRIERS` on a signed `int`. The barrier functions use the same one-sided test (src/arch/x86/ssmp_arch.c:381,394; src/arch/sparc/ssmp_arch.c:297,310), so a negative number passes and indexes before the table | barrier_num = -1 | only 0 <= barrier_num < SSMP_NUM_BARRIERS selects a barrier, and anything else gives NULL or a no-op | not executed | Ssmp.GetBarrierAsWrittenEscapes | Ssmp.GetBarrier |

`Barrier.Init` and `Barrier.Enter` use the corrected test `Ssmp.InTable`.
