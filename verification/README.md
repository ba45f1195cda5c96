# Verified model of the sc_ethernet receive path

This project models the FULL receive path of sc_ethernet and two pieces of arithmetic beside
it, in Dafny.

* **The buffer ring** (`mii_malloc.c`). `RingPool` describes the ring as memory words that
  represent a queue of committed records; `PoolSteps` is the state machine in which the
  lock-free producer (`mii_rx_pins` with `mii_reserve` and `mii_commit`), `mii_free` and the
  header writers interleave, one shared load or store per action; `PoolTheorems` says what
  holds in every interleaving. There the stores of `mii_free` that move `rdptr` are one action;
  `SplitFree` takes them apart and says exactly when the ring survives, `SplitSystem` when the
  whole receive path does; `Races` is about the order of the two tests after them. `FilterTail` is about the word `ethernet_filter` reads
  behind a record. `MemPool` is the allocator as an object that updates the pool array in
  place, proved against the same queue, and `ExactFit` the transmit server's use of it.
* **The receive server and its clients** (`ethernet_rx_server.xc`, `ethernet_rx_client.xc`,
  `mii_queue.c`). `Links` is the circular queue of `link_layer_status_t`; `Protocol` is one
  client, its channel and the server's dealings with it, including the control token that is both a
  notification and an acknowledgement; `RxSystem` puts the ring, the server's private cursor and any
  number of clients into one state machine; `SystemProofs` keeps its invariant; `SystemTheorems`
  states what follows for every run; `Reception` ties the frames committed to what the line brought,
  and `Settings` what each client is given to the commands it has completed; `Progress` shows that
  committed frames, operations and releases get done; `StatusTokens` is about runs in which the link status changes at any time; `RxServer` is
  the server's buffer handling as imperative code; `TsQueue` is the timestamp ring.
* **Frame transport**. `Stream` compares streaming through the sentinel with random access;
  `Transport` is `mac_rx_send_frame1` and `ethernet_unified_get_data`, byte by byte.
* **Checksums** (`checksum.c`, `demo.xc`). `OnesComplement` is the reference definition of RFC 1071
  and its algebra; `Checksum` holds the three checksum functions; `Icmp` the echo reply.
* **Management interface** (`smi.xc`). `Smi` drives the bits of `smi_reg` into a PHY that decodes
  management frames of clause 22.2.4.5 of IEEE 802.3.

Configuration: one port, no high-priority queue, hardware lock, separate MDC and MDIO ports; any
number of queue slots (NUM_MII_RX_BUF, NUM_MII_TX_BUF) and of clients.
Addresses are word indices into the pool array: the source's pools are `int` arrays and its
accesses are word accesses. The descriptor occupies words 1 to 5, so every address is positive.

Check it with `dafny verify dfyconfig.toml`.

## What the code does not keep

Each of these is proved with the exact condition under which the code does keep the property,
and with a run or an input in which it does not.

* `mii_free` stores `rdptr`, `rdptr_at_start` and the cleared link (lines 167, 168-171 and 174)
  without the producer's knowledge. With the three stores taken apart, a run keeps the ring
  invariant throughout exactly when neither of two things happens in it (`SplitFree.RunKeptIff`):
  `mii_commit` wraps on a flag still 0 while `rdptr` is already at the start, or the late store of
  line 174 hits a word that is in use again and not 0. `SplitFree.StaleWrapRun` and
  `SplitFree.LateClearRun` are runs from the initial pool that get there; after the first the
  pool looks empty although it holds a record (`SplitFree.StaleWrapLosesAll`), after the second
  memory represents no queue at all (`SplitFree.LateClearLosesQueue`). A flag still 1 after
  `rdptr` has left the start only discards a frame (`SplitFree.DecideAgreesIff`). The same
  condition, and nothing more, decides for the receive path as a whole, with server, cursor,
  counts, queues and tokens (`SplitSystem.RunKeptIff`).
* `mii_reserve_at_least` accepts an exact fit, and a commit of that length makes the pool look
  empty; no other length does (`MemPool.ExactFitLooksEmptyIff`, `MemPool.MemPool.Commit`). The
  size the transmit server asks for is two bytes short of the largest record it writes, and
  `ExactFit.ExactFitRun` is a run of its 4096-byte pool that loses three records this way.
* `ethernet_filter` reads the tail word from the place where the link of the next record goes.
  In every interleaving it reads what was stored exactly as long as the producer has not stored
  that link since, or the link happens to be the same word; behind a commit that wraps, always
  (`FilterTail.FilterReadsIff`). `FilterTail.TailLostRun` is a run in which a frame that has not
  been staged yet has lost its tail: the producer was one frame faster than the filter.
* The link-status branch sends a token without setting `notified`. A run keeps the token
  invariant throughout exactly when the branch never meets an un-notified subscriber
  (`StatusTokens.TokensKeptIff`). In `StatusTokens.StrayTokenRun`, from the initial state, a
  client subscribes, the status changes, and the client's next command reaches its data
  rendezvous with a token still queued.
* A payload-only request delivers the frame from its first byte on, so the payload only of a
  frame that repeats itself with period 12 (`Transport.Receive`, `Transport.PayloadRequestFails`).
* `checksum` of an empty message is 0, not 0xFFFF (`Checksum.Checksum`), and
  `checksum_udp` never reads the length field (`Checksum.ChecksumUdp`).
* `add_ts_queue_entry` has no full test: it appends exactly while fewer than MAC_MAX_ENTRIES - 1
  entries are queued, and otherwise loses all of them (`TsQueue.TsQueue.Add`, `TsQueue.LoseAll`).
  Every timed sender has at most one entry outstanding, so it takes MAC_MAX_ENTRIES of them, six
  by default; the transmit server serves up to ten (MAX_LINKS,
  module_ethernet/src/full/ethernet_tx_server.xc:23).

One more edge is the allocator's alone: `mii_reserve_at_least` grants one word even where the owner
word then overwrites the link of the oldest record (`MemPool.MemPool.ReserveAtLeast`). Its only
caller asks for far more.

## Model

| member | source | states |
|---|---|---|
| SystemTheorems.DeliveredAsCommitted | module_ethernet/src/full/ethernet_rx_server.xc:430-449 | in every run, what a client has received is, in order of acceptance and without repetition, the frames accepted for it as committed: all the words up to the last, partial one, and so every byte below the length; matched = delivered + queued + dropped |
| SystemTheorems.FramesAreReceived | module_ethernet/src/full/mii_master.xc:366-383 | in every run a commit adds the frame the line brought, all its words, with the number of bytes received, four a word and the tail, less the CRC's four as its length; nothing else adds a frame |
| SystemTheorems.CommittedIsHeard | module_ethernet/src/full/mii_master.xc:325-383 | the frame begun at one event and ended with t bytes at another is committed with the words stored from its beginning on and the length 4 a word + t - 4 |
| Reception.CommittedAsReceived | module_ethernet/src/full/mii_malloc.c:117-144 | the same for the ring alone, in every interleaving: the record a commit appends has the words and the length received |
| SystemTheorems.SendIsSent | module_ethernet/src/full/ethernet_rx_server.xc:192-222 | what the server sends in the system model is what `mac_rx_send_frame1` streams for a full frame |
| SystemTheorems.QueuedBuffersAreLive | module_ethernet/src/full/ethernet_rx_server.xc:291-337 | in every run, every queued buffer is an unreclaimed record not passed to mii_free, its words are those committed, and tcount + 1 clients hold it |
| SystemTheorems.FreedOnceByLastHolder | module_ethernet/src/full/ethernet_rx_server.xc:332-337 | in every run, a taken frame has been passed to mii_free exactly when no client holds it any more, and never twice |
| SystemTheorems.TakesInCommitOrder | module_ethernet/src/full/ethernet_rx_server.xc:470-477 | in every run the take that follows k others takes frame k: the cursor is at its record, with the words and the length it was committed with |
| Settings.AcceptedInEveryRun | module_ethernet/src/full/ethernet_rx_server.xc:281-320 | in every step of every run a frame is accepted for a client exactly when it is taken, the filter result in its header has a bit of the client's mask, and the queue is below its limit and NUM_MII_RX_BUF - 1; it is counted as dropped exactly when it matches and is not accepted |
| Settings.MaskIsLastFilter | module_ethernet/src/full/ethernet_rx_server.xc:95-100 | in every run a client's mask is the argument of the last filter command it has completed, 0 before the first |
| Settings.LimitIsLastCommand | module_ethernet/src/full/ethernet_rx_server.xc:118-136 | in every run its queue limit is set by the last queue-size command or drop command (one, or all slots) it has completed, all slots before the first |
| Settings.StatusDueIff | module_ethernet/src/full/ethernet_rx_server.xc:479-490 | a status packet is due exactly when the link status has changed for a subscriber, or the client asked for one, and it has completed no frame request and no subscription since |
| Settings.SubscribedIff | module_ethernet/src/full/ethernet_rx_server.xc:137-140 | a client is subscribed exactly when its last subscription command did not ask for 0 |
| Settings.FrameRequestOutcome | module_ethernet/src/full/ethernet_rx_server.xc:417-449 | in every run a frame request is answered by a status packet exactly when one is due, which is then no longer due, and otherwise by one frame |
| SystemTheorems.CursorOnBoundary | module_ethernet/src/full/mii_malloc.c:205-240 | in every run the private cursor is reached from rdptr by links; the frame it takes is committed, unfreed, staged since its commit, and its link is positive |
| SystemTheorems.TokensInEveryRun | module_ethernet/src/full/ethernet_rx_server.xc:67-156 | in every run tokens in flight equal notified between operations, notified says whether the queue is non-empty, and every rendezvous starts with an empty channel and agreeing sides |
| Progress.NoDeadlockInAnyRun | module_ethernet/src/full/ethernet_rx_client.xc:40-46 | in every run, unless all committed frames are taken and server and clients have nothing to do, some step of a frame, an operation or a release is enabled |
| Progress.AdvanceLowers | module_ethernet/src/full/ethernet_rx_server.xc:400-495 | every step that stages or takes a frame, or advances an operation or a release, lowers a rank: none of them goes on for ever |
| Progress.QuiescenceInAnyRun | module_ethernet/src/full/ethernet_rx_server.xc:400-495 | from every reachable state committed frames, operations and releases can be run to their end: all frames taken, and nothing left but waiting for frames not yet committed |
| SystemTheorems.RunInv | module_ethernet/src/full/ethernet_rx_server.xc:400-495 | the combined invariant of ring, cursor, counts, queues and tokens holds in every reachable state |
| SystemProofs.StepInv | module_ethernet/src/full/ethernet_rx_server.xc:400-495 | every event of producer, filter, mii_free, server and clients keeps the combined invariant, a status token to an un-notified subscriber excepted |
| SystemProofs.TakeInv | module_ethernet/src/full/ethernet_rx_server.xc:276-339 | taking a frame keeps the counts, queues, releases and tokens consistent, including the frame nobody accepts |
| SystemProofs.ServeInv | module_ethernet/src/full/ethernet_rx_server.xc:430-440 | sending a frame keeps the counts and releases consistent, including the last holder's release |
| SystemProofs.MemoryInv | module_ethernet/src/full/mii_malloc.c:117-195 | producer, filter and mii_free steps leave every taken frame's position, count and release mark as they were, or reclaim a released one |
| SystemProofs.HoldersAfterOffer | module_ethernet/src/full/ethernet_rx_server.xc:287-322 | tcount counts exactly the clients whose queue now holds the frame, and no other frame's holders change |
| Protocol.ClientStepTokens | module_ethernet/src/full/ethernet_rx_client.xc:129-137 | each client step of a frame request or a command keeps the token invariant |
| Protocol.ServerStepTokens | module_ethernet/src/full/ethernet_rx_server.xc:67-94 | each server step keeps the token invariant, and the next message is the one it expects |
| Protocol.RendezvousIsClean | module_ethernet/src/full/ethernet_rx_server.xc:86-156 | a rendezvous starts with no token or message queued, on the same request, and a frame request finds a frame |
| Protocol.CommandRoundTrip | module_ethernet/src/full/ethernet_rx_client.xc:129-137 | a whole command changes the one setting it is about, mask, queue limit or subscription, and leaves channel and flag as they were: a notification taken as an acknowledgement is sent again |
| Protocol.FrameRoundTrip | module_ethernet/src/full/ethernet_rx_server.xc:412-451 | a whole frame request removes the oldest buffer, hands over its words and notifies the client again iff another waits; a due status packet goes out once instead and no frame is lost |
| Protocol.OfferTokens | module_ethernet/src/full/ethernet_rx_server.xc:306-320 | offering a frame keeps the token invariant: the queue becomes non-empty exactly when a notification goes out |
| Protocol.OfferOutcome | module_ethernet/src/full/ethernet_rx_server.xc:288-320 | an offered frame is queued exactly if it matches while the length is below max_queue_size and a slot is free; it is counted as dropped, modulo 2^32, exactly if it matches and is not queued; nothing else changes |
| Protocol.HitsIff | module_ethernet/src/full/ethernet_rx_server.xc:288-289 | a frame matches iff some bit is set both in the mask and in the filter result |
| Protocol.StatusChangeTokensIff | module_ethernet/src/full/ethernet_rx_server.xc:479-490 | the status branch keeps the token invariant iff no un-notified subscriber is notified |
| Protocol.StatusTokenStraysIntoRendezvous | module_ethernet/src/full/ethernet_rx_server.xc:479-490 | from every state in which the status branch reaches an un-notified subscriber at rest, the token it sends is still queued when the next command's data rendezvous starts |
| StatusTokens.TokensKeptIff | module_ethernet/src/full/ethernet_rx_server.xc:479-490 | a run with status changes at any time keeps the token invariant throughout iff none of them meets an un-notified subscriber |
| StatusTokens.StrayTokenRun | module_ethernet/src/full/ethernet_rx_server.xc:479-490 | a run from the initial state to a data rendezvous with a stray token queued |
| Links.QueueBound | module_ethernet/src/full/ethernet_rx_server.xc:299-307 | the circular queue holds at most NUM_MII_RX_BUF - 1 buffers and accepts exactly below that and the client's limit |
| Links.PushAppends | module_ethernet/src/full/ethernet_rx_server.xc:309-310 | accepting a buffer appends it to the queue |
| Links.PopRemovesOldest | module_ethernet/src/full/ethernet_rx_server.xc:431-442 | serving removes the oldest buffer, the one sent |
| RxServer.RxServer.OfferTo | module_ethernet/src/full/ethernet_rx_server.xc:288-321 | the in-place update of one client's link status is the model's offer |
| RxServer.RxServer.ProcessReceivedFrame | module_ethernet/src/full/ethernet_rx_server.xc:276-339 | every client is offered the buffer; with no taker the record is freed at once, otherwise its count becomes takers - 1 |
| RxServer.RxServer.ServeFrameRequest | module_ethernet/src/full/ethernet_rx_server.xc:412-451 | a due status packet goes out once; otherwise the oldest record's committed words go out, it leaves the queue, its count goes down or the record is freed; then the client is notified again or its flag cleared |
| RxServer.RxServer.ServiceCommand | module_ethernet/src/full/ethernet_rx_server.xc:95-155 | the command's value is stored in the field it is about and nowhere else, and a consumed notification is sent again |
| PoolTheorems.RingIsQueue | module_ethernet/src/full/mii_malloc.c:91-195 | in every interleaving the links lead from rdptr through exactly the committed, unreclaimed records to wrptr; records are disjoint modulo wrap; empty is told from full; sentinel and slack are intact |
| PoolTheorems.StepRefinesQueue | module_ethernet/src/full/mii_malloc.c:117-195 | every step refines commit, mark, stage or reclaim on an abstract queue; only a released oldest record is ever reclaimed |
| PoolTheorems.LinkReadIsPublished | module_ethernet/src/full/mii_malloc.c:176-181 | when hdr differed from wrptr, the link read next is published and its sign tells whether the record is freed |
| PoolTheorems.CommitNeverLooksEmpty | module_ethernet/src/full/mii_malloc.c:125-143 | a successful commit appends its record, leaves rdptr and wrptr apart and the slack before the end intact |
| PoolTheorems.FreeTerminates | module_ethernet/src/full/mii_malloc.c:156-188 | every step of mii_free lowers a rank nobody else raises; at its end the pool is empty or its oldest record is live |
| PoolSteps.StepInv | module_ethernet/src/full/mii_malloc.c:91-195 | every action of producer, freer and header writers keeps the ring invariant |
| PoolSteps.DecideInv | module_ethernet/src/full/mii_malloc.c:125-134 | the wrap decision leaves the end pointer usable and strictly after the record in ring order |
| PoolSteps.FreeHeadStep | module_ethernet/src/full/mii_malloc.c:156-187 | mii_free drops the oldest record only if it is marked or the one being freed, otherwise it marks the record |
| PoolSteps.HeaderWordKept | module_ethernet/src/full/mii_malloc.c:117-195 | no action but its own write changes a header word of a committed record |
| SplitFree.RunKeptIff | module_ethernet/src/full/mii_malloc.c:156-188 | with lines 167, 168-171 and 174 as separate stores, a run keeps the ring invariant throughout iff no commit wraps on a stale flag and no late clear hits a word in use that is not 0 |
| SplitFree.StepKeepsIff | module_ethernet/src/full/mii_malloc.c:162-174 | a step of that interleaving keeps the ring invariant iff it is neither of the two |
| SplitFree.DecideAgreesIff | module_ethernet/src/full/mii_malloc.c:125-132 | mii_commit decides as with an up-to-date flag unless it is about to wrap between lines 167 and 171 and the flag has to change |
| SplitFree.StepRefinesQueue | module_ethernet/src/full/mii_malloc.c:146-195 | otherwise every step refines a step of the abstract queue, the reclaim happening at line 167 |
| SplitSystem.RunKeptIff | module_ethernet/src/full/mii_malloc.c:156-188 | a run of the whole receive path over the split stores keeps ring, cursor, counts, queues and tokens throughout iff neither hazard of the ring occurs and no status change meets an un-notified subscriber |
| SplitSystem.StepKeepsIff | module_ethernet/src/full/ethernet_rx_server.xc:400-495 | a step of it keeps the combined invariant iff it is none of these |
| SplitSystem.ServerResults | module_ethernet/src/full/ethernet_rx_server.xc:430-449 | in such runs clients receive the committed words in order of acceptance, the last, partial one included, queued buffers are live, and a frame is freed once, by its last holder |
| SplitFree.StaleWrapRun | module_ethernet/src/full/mii_malloc.c:166-171 | a run from an initialised pool that reaches a wrap on the stale flag |
| SplitFree.StaleWrapLosesAll | module_ethernet/src/full/mii_malloc.c:125-143 | after such a wrap the commit succeeds, rdptr equals wrptr, and memory represents only the empty queue |
| SplitFree.LateClearRun | module_ethernet/src/full/mii_malloc.c:173-174 | a run from an initialised pool in which line 174 clears the link of a record committed since, after which memory represents no queue |
| SplitFree.LateClearLosesQueue | module_ethernet/src/full/mii_malloc.c:173-174 | whenever the word cleared late is a record's link, memory represents no queue |
| SplitFree.ClearKeepsWordsIff | module_ethernet/src/full/mii_malloc.c:173-174 | every word of every committed record, reference counts included, survives the clear iff the cleared word is none of them or already 0 |
| Races.ReversedTestsLoseLiveRecord | module_ethernet/src/full/mii_malloc.c:176-181 | with the two tests swapped a commit between them makes a live record look freed; in the source's order it does not |
| FilterTail.TailStored | module_ethernet/src/full/mii_master.xc:376-379 | the tail word is stored where the record will end |
| FilterTail.FilterReadsIff | module_ethernet/src/full/mii_filter.xc:83 | in every interleaving from the store of the tail on, while the record is neither abandoned nor reclaimed, the filter reads the stored tail iff no next link has been stored over it or that link is the same word; never so behind a wrapping commit |
| FilterTail.FilterReadsLink | module_ethernet/src/full/mii_malloc.c:139 | once the tail is gone the word the filter reads is the link of the next record, negated when that record is freed |
| FilterTail.TailLostRun | module_ethernet/src/full/mii_master.xc:376-383 | a run from an initialised pool in which the filter would take an address for the tail, 0, of a committed frame it has not staged |
| FilterTail.FilterReadsTail | module_ethernet/src/full/mii_filter.xc:83 | the word the filter computes from the length is that tail word |
| RingPool.ChainReachesWrptr | module_ethernet/src/full/mii_malloc.c:133-141 | following the links visits the queued records in order and meets wrptr exactly after the last |
| RingPool.ChainUnique | module_ethernet/src/full/mii_malloc.c:32-35 | memory determines the queue: positions, freed marks, staging and lengths |
| RingPool.Publish | module_ethernet/src/full/mii_malloc.c:139-141 | moving wrptr past a stored record appends it to the queue |
| RingPool.Advance | module_ethernet/src/full/mii_malloc.c:162-174 | moving rdptr to the next record removes the oldest from the queue |
| RingPool.MarkFreed | module_ethernet/src/full/mii_malloc.c:182-186 | negating the link marks the record and nothing else |
| MemPool.MemPool.constructor | module_ethernet/src/full/mii_malloc.c:40-54 | an initialised pool is valid and empty |
| MemPool.MemPool.ReserveAtLeast | module_ethernet/src/full/mii_malloc.c:62-89 | when a buffer is handed out; every shorter record will then be committed; the pool stays intact iff the request is not for one word directly before the oldest record |
| MemPool.MemPool.Reserve | module_ethernet/src/full/mii_malloc.c:91-115 | when a buffer is handed out, and that it has MIN_USAGE words of room |
| MemPool.MemPool.Commit | module_ethernet/src/full/mii_malloc.c:117-144 | 0 exactly when the end is near the wrap and rdptr is at the start, changing nothing; otherwise the record joins the queue, and the pool stays intact iff the record is not an exact fit |
| MemPool.MemPool.Free | module_ethernet/src/full/mii_malloc.c:146-195 | the record is marked and the whole freed prefix reclaimed; a grant given before stays good |
| MemPool.MemPool.GetNextBuf | module_ethernet/src/full/mii_malloc.c:242-253 | the oldest committed buffer, 0 exactly when there is none |
| MemPool.MemPool.UpdateMyRdptr | module_ethernet/src/full/mii_malloc.c:205-222 | a cursor on a live record moves to the next boundary, and the link is positive |
| MemPool.MemPool.PacketGetData | module_ethernet/src/full/mii_malloc.c:256-266 | the n-th data word as committed, across the wrap |
| MemPool.MemPool.GetAndDecTransmitCount | module_ethernet/src/full/mii_queue.c:24-42 | returns the count and lowers it by one, not below zero; the queue is unchanged |
| MemPool.ReserveThenCommit | module_ethernet/src/full/mii_malloc.c:62-89 | after a successful reservation, whatever producer, frees, filter and server do before the next commit, a shorter record can be stored to its end, is not discarded, and is published without making the pool look empty |
| MemPool.ExactFitLooksEmptyIff | module_ethernet/src/full/mii_malloc.c:82-83 | an accepted commit makes the pool look empty iff it uses every word up to rdptr |
| ExactFit.ExactFitRun | module_ethernet/src/full/ethernet_tx_server.xc:193-194 | the transmit server's size is two bytes short of its largest record; a run of its pool that grants and commits the exact fit, after which three live records are lost |
| MemPool.FreeAllIsMarkAll | module_ethernet/src/full/mii_malloc.c:146-195 | the outcome of a series of frees depends on the set freed, not on the order |
| MemPool.FreeingAllEmpties | module_ethernet/src/full/mii_malloc.c:146-195 | calling mii_free for the buffers of all live records, in any order, makes rdptr meet wrptr |
| TsQueue.TsQueue.Add | module_ethernet/src/full/mii_queue.c:120-142 | appends below MAC_MAX_ENTRIES - 1 entries, otherwise loses every entry |
| TsQueue.LoseAll | module_ethernet/src/full/mii_queue.c:120-142 | MAC_MAX_ENTRIES entries added to a fresh ring leave it empty |
| TsQueue.TsQueue.Get | module_ethernet/src/full/mii_queue.c:90-118 | removes and returns the oldest entry, 0 when there is none |
| Stream.StreamIsRandomAccess | module_ethernet/src/full/ethernet_rx_server.xc:181-188 | streaming through the sentinel yields, word for word, what mii_packet_get_data yields |
| Stream.FrameWordsAreCommitted | module_ethernet/src/full/ethernet_rx_server.xc:204-217 | the words streamed for a committed record are the words it was committed with, as many as hold its length in bytes |
| Transport.SendFrame1 | module_ethernet/src/full/ethernet_rx_server.xc:164-222 | the bytes put on the channel for each request kind |
| Transport.GetData | module_ethernet/src/full/ethernet_rx_client.xc:34-88 | of a frame reply fills the bytes below length and limit and no others, of a status packet the first byte; reads exactly as many bytes as were sent |
| Transport.Receive | module_ethernet/src/full/ethernet_rx_client.xc:48-86 | server and client together, every byte of the buffer for every request kind and limit: the frame, the frame two places later, or the frame without its last twelve bytes; a payload-only request delivers the payload iff the frame repeats itself with period 12 |
| Transport.PayloadRequestIff | module_ethernet/src/full/ethernet_rx_server.xc:196-217 | the buffer after a payload-only request holds the payload iff the frame repeats itself with period 12 |
| Transport.PayloadRequestFails | module_ethernet/src/full/ethernet_rx_server.xc:196-217 | a frame of minimal length whose payload is not delivered |
| OnesComplement.OnesSumIsCanon | app_ethernet_demo/src/checksum.c:34-39 | adding as integers and folding once is one's-complement addition with a carry each time |
| OnesComplement.Section3Example | app_ethernet_demo/src/checksum.c:34-75 | the definition agrees with the numerical example of section 3 of RFC 1071 |
| OnesComplement.ByteOrderIndependence | app_ethernet_demo/src/checksum.c:16-27 | the sum of byte-swapped words is the swapped sum |
| OnesComplement.ShiftedGrouping | app_ethernet_demo/src/checksum.c:44-61 | the grouping for a misaligned start adds up to the network-order sum |
| OnesComplement.InsertedChecksumVerifies | app_ethernet_demo/src/checksum.c:77-96 | a message with its checksum put into the zeroed field verifies |
| Checksum.Checksum | app_ethernet_demo/src/checksum.c:34-75 | for every message and both alignments the RFC 1071 checksum iff the message is not empty, else 0; the accumulator never wraps and folding ends |
| Checksum.Fold | app_ethernet_demo/src/checksum.c:63-67 | the folding loop ends with the 16-bit representative of the sum |
| Checksum.ChecksumIp | app_ethernet_demo/src/checksum.c:77-96 | the RFC 1071 checksum of the header bytes 14 to 33 |
| Checksum.ChecksumUdp | app_ethernet_demo/src/checksum.c:98-129 | the checksum over pseudo header, ports, the length argument in place of the length field, and data, byte by byte and odd lengths included; the checksum of RFC 768 iff the field agrees with the argument, 0 and 65535 being one number |
| Checksum.UdpChecksumIff | app_ethernet_demo/src/checksum.c:98-129 | replacing the frame's length field by the argument leaves the checksum as it is iff the two are equal, 0 and 65535 being one number |
| Icmp.BuildIcmpResponse | app_ethernet_demo/src/demo.xc:196-268 | every byte of the padded reply, its length that of bytes 16 and 17 of the request; its IP header verifies, and a valid echo request gets a valid ICMP message |
| Icmp.HeaderField | app_ethernet_demo/src/demo.xc:205-259 | the sum started from 0x0185 gives the RFC 1071 checksum of the reply's header |
| Icmp.ReplyHeaderVerifies | app_ethernet_demo/src/demo.xc:233-261 | the reply's IP header verifies |
| Icmp.EchoUpdateVerifies | app_ethernet_demo/src/demo.xc:250-253 | adding 0x0800 with an end-around carry turns the checksum of a valid request into that of the reply |
| Icmp.ReplyMessageVerifies | app_ethernet_demo/src/demo.xc:216-253 | the ICMP message of the reply to a valid request verifies |
| Smi.Bus.BitShift | module_ethernet_smi/src/smi.xc:142-164 | drives the bits most significant first, or shifts the sampled ones in |
| Smi.Bus.SmiReg | module_ethernet_smi/src/smi.xc:172-177 | the bits on the line are the frame of clause 22.2.4.5; the PHY decodes it with the given operation, addresses and data; a write changes the addressed register only, a read returns it |
| Smi.Bus.WriteThenRead | module_ethernet_smi/src/smi.xc:172-177 | a register read after a write returns the value written |

## Left out

- FreeHeadStep: takes the stores of lines 162-174 as one step; `SplitFree` and `SplitSystem` take them apart.
- ReserveAtLeast: does not model overflow of the 32-bit size.
- Reserve: does not model the abandoned frame's statistics counter.
- StepInv: excludes status tokens to un-notified subscribers, for which the invariant fails (`StatusTokens`).
- GetData: requires a frame shorter than 2^31 bytes, and one that holds two addresses for a payload-only request; the filter passes no shorter frame.
- ChecksumUdp: for lengths 8 to 65535, the range of the UDP length field.
- BuildIcmpResponse: requires buffers that hold the frame its length field announces; the request's own validity tests and the console output are not modelled.
- ProcessReceivedFrame: one port, so no forwarding count; the trap on a dropped frame is off, as by default.
- The ordering pragma of the select loop: frames may also be taken while a command waits, which only adds runs.
- The sixth word of a frame is stored with the first five instead of at the end of the frame; nobody reads it earlier.
- Word counts on the wire are per request kind; the timer, tile and counter requests are modelled as exchanges without content.
- The filter beyond setting the header words and stage 1: the result it stores is any word; taking a frame loads it.
- MII pin timing, CRC, the transmit server, the traffic shaper and the LITE implementation.
- Multi-port forwarding and the high-priority queue.
- The lock implementations: acquire and release are taken as atomic, and one call of mii_free runs at a time.
- Combined MDC/MDIO ports and register bit settings of smi.xc.
- ARP, the frame channel between tasks, polling the PHY for the link state, storing the MAC address, and board support.
