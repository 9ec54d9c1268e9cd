# State machines of the AIC8800 Wi-Fi driver

A Dafny model of the in-memory state machines of `aic8800_fdrv`, with proofs of what each of them promises over every
input and every run. Each one is modelled twice: as a specification on values (a FIFO, a map, a list of tags, the
concatenation of what was received), about which the properties are proved, and as a class or a method that works in
place like the source, each operation proved to do what the specification says.

| files | source | subject |
|---|---|---|
| `BlockStream.dfy`, `Md5.dfy` | `md5.c` | streaming MD5 |
| `Md5Facts.dfy`, `Md5Answer.dfy` | `md5.h`, `md5.c` | what its operations compute, and a known answer |
| `TxRing.dfy` | `ipc_host.c` | the TX descriptor rings and their confirmations |
| `TcpAckSlot.dfy`, `TcpAckFilter.dfy`, `TcpAckManager.dfy` | `aicwf_tcp_ack.c` | the TCP ACK filter: one flow, all 32 slots, the handlers |
| `NatRecords.dfy`, `NatTable.dfy` | `aic_br_ext.c` | the NAT2.5 table: what it records, how its chains are linked |
| `VlanFrame.dfy`, `PppoeRelay.dfy`, `DhcpChecksum.dfy` | `aic_br_ext.c` | frames rewritten in place |
| `FrameQueue.dfy` | `aicwf_txrxif.c` | the priority frame queue |
| `UsbReassembly.dfy`, `UsbTxPool.dfy` | `aicwf_usb.c` | message reassembly, transmit buffers and flow control |
| `Words.dfy`, `SkBuff.dfy`, `Counts.dfy`, `Wrappers.dfy` | | machine integers, socket buffers, counting, Option |

`dafny verify dfyconfig.toml` checks everything. Locked handlers are single steps, except where `UsbTxPool` cuts them
into the pieces other handlers can come between. Allocation, device state, what the USB core answers, what the
confirmation callback replies and what a frame was classified as are inputs; `jiffies` is a parameter.

Functions that code and specification share are pinned apart from their bodies, in terms of bits, bytes and distances:
the MD5 operations (`Md5Facts`, `Md5Answer.DigestOfAlphabet`), serial numbers (`TcpAckSlot.BeforeIff`), record age and
keys (`NatRecords.ExpiredIff`, `NatRecords.HashIs`, `NatTable.KeysDiffer`), lengths on the wire
(`UsbReassembly.WellFormedIff`), the frames edited (`DhcpChecksum.UnicastRequestIs`) and ring slots (`TxRing.MaskIs`).

## Where the code falls short of its purpose

Each of these comes with a concrete input or run on which it happens, and with the exact condition under which the code
does what it is for, an if and only if over all inputs (for USB reassembly with one exception, named there and at the
end).

- `MD5Update` tests `i + 64 <= inputlen` in 32 bits. For an input within 128 bytes of 2^32 the sum can wrap at the
  offset where the loop should stop, and then the test never fails again. The loop ends if and only if the sum does not
  wrap (`Md5.LoopEndsIff`, `Md5.LoopForever`); `Md5.Md5Context.Update` and `Md5.DigestOfChunks` ask for just that.
- The TX confirmation handler puts a refused head back into its slot. A callback that refuses after pushing into the last
  free slot has its newest packet overwritten, and that is the only way to lose one (`TxRing.OverfullIff`,
  `TxRing.TxQueue.HandleConfirmations`; `TxRing.RefuseOnFull`, `TxRing.LosesAPush`).
- A TCP ACK slot is reused without clearing the buffer it holds, so the first advancing ACK of a new flow can free the
  newest ACK of another (`TcpAckSlot.FirstAdvanceFreesLeftover`, `TcpAckFilter.LeftoverIsReachable`). A tenure that
  begins with nothing held loses no progress (`TcpAckSlot.ProgressKept`, `TcpAckFilter.ProgressFromInit`).
- A slot that ages out during a send ignores the completion of that send, and hands the mark of it on to its next tenure.
  Without a PSH mark that tenure then sends no ACK at all. A tenure sends its first advancing ACK at once if and only if
  it took over no such mark (`TcpAckSlot.FirstAdvanceSentIff`, `TcpAckSlot.StarvedTenure`, `TcpAckFilter.StarvedInRun`,
  `TcpAckFilter.StarvedIsReachable`).
- A timer that fires while a send is outstanding, or in a slot that has aged out, is not armed again: the held ACK then
  waits, without limit, for the next advancing one (`TcpAckSlot.TimedUnlessBlocked`, `TcpAckSlot.StuckUntilAdvance`,
  `TcpAckFilter.StuckIsReachable`).
- Setting the DHCP broadcast flag adds the whole flags word to the checksum, where only the difference belongs. The
  result is right if and only if the flags were zero (`DhcpChecksum.DatagramStillVerifiesIff`,
  `DhcpChecksum.ReservedFlagFails`).
- A full frame queue puts an accepted frame into the class of the frame it evicts, not into the frame's own,
  and it does so with every frame a full queue accepts (`FrameQueue.Target`, `FrameQueue.EntersLowerClass`).
- A failed USB transfer leaves a packet under way as it is. What comes next is taken for its continuation if and only if
  it has the length the receiver waits for: the missing length for the last fragment, a full transfer for any other. A
  longer packet can lose its first fragments that way, and a packet nobody sent be delivered
  (`UsbReassembly.DeliveredIff`, `UsbReassembly.DeliversAMixture`). The one exception is a next packet that is itself
  the mixture of the two (`UsbReassembly.CoincidenceIsDelivered`). Reception is in step again after the first packet
  shorter than a transfer, whatever came before (`UsbReassembly.RecoversAtShort`).
- The NAT2.5 shortcut keeps MAC and address of the recorded client when another one without record sends, and is then
  never forgotten with its entry. It records no client without an entry if and only if the MAC is the recorded one, or
  the address has a record, or nothing was recorded (`NatTable.Table.UpdateShortcut`). Frames can go on being rewritten
  to a client the table has forgotten (`VlanFrame.LeaveStale`, `VlanFrame.ServesFreedClient`). With nothing recorded it
  takes the frames to 0.0.0.0 to the zero MAC (`VlanFrame.EmptyShortcut`).
- The shortcut spares the recording of a frame, too. When a recorded address sends from a new MAC, the shortcut takes the
  new one and the record keeps the old one, refreshed (`NatTable.Table.UpdateShortcut`, `NatTable.Table.ClientFrame`),
  so that shortcut and lookup send frames to different clients (`VlanFrame.MovedClient`). They do the same if and only
  if the frame is sound, the record not expired and the MAC the same (`VlanFrame.Bridge.ShortcutIsLookupIff`).

## Model

| member | source | states |
|---|---|---|
| Md5.PaddedIsWhole | packages/aic8800/usr/src/aic8800-1.0.8/aic8800_fdrv/md5.c:42-52 | padding ends on a block boundary, adds 9 to 72 bytes and starts with the message (RFC 1321 sections 3.1 and 3.2) |
| Md5.EncodeDecode | packages/aic8800/usr/src/aic8800-1.0.8/aic8800_fdrv/md5.c:53-78 | little-endian encoding undoes decoding, for every byte string of whole words |
| Md5.WordBytes | packages/aic8800/usr/src/aic8800-1.0.8/aic8800_fdrv/md5.c:53-78 | each byte of a decoded word is read back from its own position |
| Md5.Md5Encode | packages/aic8800/usr/src/aic8800-1.0.8/aic8800_fdrv/md5.c:53-65 | the output bytes are the little-endian bytes of the words; nothing past `len` is written |
| Md5.Md5Decode | packages/aic8800/usr/src/aic8800-1.0.8/aic8800_fdrv/md5.c:66-78 | the words are the little-endian words of the bytes, from any offset |
| Md5.Round1 | packages/aic8800/usr/src/aic8800-1.0.8/aic8800_fdrv/md5.c:87-102 | the sixteen unrolled FF operations, with the source's operand order, shifts and constants, are operations 1 to 16 of RFC 1321 section 3.4 in the form where the registers rotate |
| Md5.Round2 | packages/aic8800/usr/src/aic8800-1.0.8/aic8800_fdrv/md5.c:105-120 | the same for GG: operations 17 to 32 |
| Md5.Round3 | packages/aic8800/usr/src/aic8800-1.0.8/aic8800_fdrv/md5.c:123-138 | the same for HH: operations 33 to 48 |
| Md5.Round4 | packages/aic8800/usr/src/aic8800-1.0.8/aic8800_fdrv/md5.c:141-156 | the same for II: operations 49 to 64 |
| Md5Facts.FSelects | packages/aic8800/usr/src/aic8800-1.0.8/aic8800_fdrv/md5.h:12 | F takes the bit of y where x has a one, and that of z elsewhere |
| Md5Facts.GSelects | packages/aic8800/usr/src/aic8800-1.0.8/aic8800_fdrv/md5.h:13 | G takes the bit of x where z has a one, and that of y elsewhere |
| Md5Facts.HIsParity | packages/aic8800/usr/src/aic8800-1.0.8/aic8800_fdrv/md5.h:14 | H has the bit of x where y and z have zeros |
| Md5Facts.HTurnsX | packages/aic8800/usr/src/aic8800-1.0.8/aic8800_fdrv/md5.h:14 | turning bits of x turns the same bits of H |
| Md5Facts.HTurnsY | packages/aic8800/usr/src/aic8800-1.0.8/aic8800_fdrv/md5.h:14 | the same for y |
| Md5Facts.HTurnsZ | packages/aic8800/usr/src/aic8800-1.0.8/aic8800_fdrv/md5.h:14 | the same for z |
| Md5Facts.ITurns | packages/aic8800/usr/src/aic8800-1.0.8/aic8800_fdrv/md5.h:15 | I has the bit of y where x has a zero and z a one, and the other one elsewhere |
| Md5Facts.RotateIs | packages/aic8800/usr/src/aic8800-1.0.8/aic8800_fdrv/md5.h:16 | rotation by any amount from 0 to 32 is arithmetic: w * 2^s modulo 2^32, plus w / 2^(32 - s) |
| Md5Facts.RotateAddIs | packages/aic8800/usr/src/aic8800-1.0.8/aic8800_fdrv/md5.h:17-41 | each operation ends in that rotation of its sum, and the addition of b, modulo 2^32 |
| Md5Facts.PlusIs | packages/aic8800/usr/src/aic8800-1.0.8/aic8800_fdrv/md5.h:17-41 | adding 32-bit words is adding the numbers they stand for, modulo 2^32 |
| Md5Facts.OpOnWords | packages/aic8800/usr/src/aic8800-1.0.8/aic8800_fdrv/md5.h:17-41 | for all operands, the operations on numbers that the code is proved to do are the macros of md5.h on 32-bit words |
| Md5.Md5Transform | packages/aic8800/usr/src/aic8800-1.0.8/aic8800_fdrv/md5.c:79-161 | the state becomes the compression of RFC 1321 section 3.4 of old state and block |
| Md5.LoopStopsIff | packages/aic8800/usr/src/aic8800-1.0.8/aic8800_fdrv/md5.c:32-33 | the block loop must stop at the first offset with less than a block left; its 32-bit test fails there if and only if offset plus 64 does not wrap, which holds for every input up to 2^32 - 128 bytes |
| Md5.LoopEndsIff | packages/aic8800/usr/src/aic8800-1.0.8/aic8800_fdrv/md5.c:32-33 | the loop ends, after whatever number of turns, if and only if that sum does not wrap; otherwise the test holds at every offset the loop ever reaches |
| Md5.LoopForever | packages/aic8800/usr/src/aic8800-1.0.8/aic8800_fdrv/md5.c:32-33 | an input on which the test never fails: 2^32 - 1 bytes with no byte pending |
| Md5.CountIndex | packages/aic8800/usr/src/aic8800-1.0.8/aic8800_fdrv/md5.c:21 | the buffer index taken from `count` is the number of bytes past the last whole block |
| Md5.CountWords | packages/aic8800/usr/src/aic8800-1.0.8/aic8800_fdrv/md5.c:49-50 | the two count words encode the 64-bit length field of RFC 1321 section 3.2 |
| Md5.CountCarry | packages/aic8800/usr/src/aic8800-1.0.8/aic8800_fdrv/md5.c:23-26 | after the update of `count`, carry included, it is eight times the new length modulo 2^64 |
| Md5.Md5Context.constructor | packages/aic8800/usr/src/aic8800-1.0.8/aic8800_fdrv/md5.c:9-17 | a context fed with nothing |
| Md5.Md5Context.Init | packages/aic8800/usr/src/aic8800-1.0.8/aic8800_fdrv/md5.c:9-17 | forgets whatever was fed before |
| Md5.Md5Context.BumpCount | packages/aic8800/usr/src/aic8800-1.0.8/aic8800_fdrv/md5.c:23-26 | `count` is eight times the length modulo 2^64 again |
| Md5.Md5Context.AbsorbBlocks | packages/aic8800/usr/src/aic8800-1.0.8/aic8800_fdrv/md5.c:32-33 | the loop compresses every whole block of the input from `partlen` on, in order, and stops at the right offset |
| Md5.Md5Context.CompleteBlock | packages/aic8800/usr/src/aic8800-1.0.8/aic8800_fdrv/md5.c:28-34 | the pending block completed by the head of the input is compressed first, then every whole block of the rest |
| Md5.Md5Context.Update | packages/aic8800/usr/src/aic8800-1.0.8/aic8800_fdrv/md5.c:18-41 | the context stands for the bytes fed so far followed by the input: state is the fold of compression over all full blocks, the buffer holds the rest, `count` the length |
| Md5.Md5Context.Final | packages/aic8800/usr/src/aic8800-1.0.8/aic8800_fdrv/md5.c:42-52 | the digest is the one-shot digest of RFC 1321 of all the bytes fed |
| Md5.DigestOfChunks | packages/aic8800/usr/src/aic8800-1.0.8/aic8800_fdrv/md5.c:9-52 | for every sequence of chunks that meets the loop condition, Init, one Update a chunk and Final give the digest of the joined bytes, however they were cut |
| Md5Answer.Op | packages/aic8800/usr/src/aic8800-1.0.8/aic8800_fdrv/md5.c:82-156 | an operation with the words, shift and constant it reads written out takes the registers a step further |
| Md5Answer.DigestOfAlphabet | packages/aic8800/usr/src/aic8800-1.0.8/aic8800_fdrv/md5.c:9-161 | a known answer of RFC 1321 section A.5: the digest of the 26 letters is c3fcd3d76192e4007dfb496cca67e13b, over all 64 operations |
| BlockStream.AbsorbConcat | packages/aic8800/usr/src/aic8800-1.0.8/aic8800_fdrv/md5.c:28-40 | folding over whole blocks and then over more is folding over all of it |
| BlockStream.StopIsWhole | packages/aic8800/usr/src/aic8800-1.0.8/aic8800_fdrv/md5.c:32-33 | between the first chunk's blocks and the stop offset lie whole blocks, and less than one is left |
| BlockStream.LongChunk | packages/aic8800/usr/src/aic8800-1.0.8/aic8800_fdrv/md5.c:28-34 | a chunk that completes the pending block: that block, then the chunk's own blocks, make the new state, and the chunk's rest is the new tail |
| BlockStream.FeedStep | packages/aic8800/usr/src/aic8800-1.0.8/aic8800_fdrv/md5.c:18-41 | one update keeps: the state is the fold over all full blocks so far, the buffer is what is left over |
| BlockStream.AnyChunking | packages/aic8800/usr/src/aic8800-1.0.8/aic8800_fdrv/md5.c:18-41 | for any compression function, however a byte string is cut into updates, state and buffer end up as if it had come in one piece |
| BlockStream.ShortChunk | packages/aic8800/usr/src/aic8800-1.0.8/aic8800_fdrv/md5.c:36-40 | a chunk that does not complete a block lengthens the tail and leaves the state |
| TxRing.MaskAdvances | packages/aic8800/usr/src/aic8800-1.0.8/aic8800_fdrv/ipc_host.c:237-239 | masking the free-running index commutes with advancing it, across the wrap from 2^32 - 1 to 0 |
| TxRing.MaskIs | packages/aic8800/usr/src/aic8800-1.0.8/aic8800_fdrv/ipc_host.c:237-239 | masking takes off whole rounds of the ring: an index within it is its own slot |
| TxRing.TxQueue.constructor | packages/aic8800/usr/src/aic8800-1.0.8/aic8800_fdrv/ipc_host.c:320-394 | an empty ring |
| TxRing.TxQueue.Get | packages/aic8800/usr/src/aic8800-1.0.8/aic8800_fdrv/ipc_host.c:565-586 | null if and only if the ring is full, else the slot at the free index, which holds no id |
| TxRing.TxQueue.Push | packages/aic8800/usr/src/aic8800-1.0.8/aic8800_fdrv/ipc_host.c:591-611 | appends the id to the FIFO; outstanding descriptors stay within the ring size and slots outside stay null |
| TxRing.TxQueue.Flush | packages/aic8800/usr/src/aic8800-1.0.8/aic8800_fdrv/ipc_host.c:299-315 | pops the oldest id, or returns null on an empty ring |
| TxRing.TxQueue.ConfirmOne | packages/aic8800/usr/src/aic8800-1.0.8/aic8800_fdrv/ipc_host.c:231-263 | one turn of the loop with a callback that may push: an accepted head leaves the FIFO and the pushes stay; a refused head is back in its place, and all is as if only the pushes had happened unless they took the last free slot, in which case the newest push has lost its slot to the head |
| TxRing.TxQueue.PutBack | packages/aic8800/usr/src/aic8800-1.0.8/aic8800_fdrv/ipc_host.c:252-258 | index and head return to where they were; a ring that was filled meanwhile loses its newest id |
| TxRing.HandleKeepsOrder | packages/aic8800/usr/src/aic8800-1.0.8/aic8800_fdrv/ipc_host.c:226-266 | confirmed ids followed by those left are the old queue followed by what the callbacks pushed, exactly once and in order; what is left may be one longer than the ring, which then loses the newest push (OverfullIff) |
| TxRing.HandleStops | packages/aic8800/usr/src/aic8800-1.0.8/aic8800_fdrv/ipc_host.c:231-263 | the handler confirms one packet per accepting reply up to the first refusal, or until the ring is empty |
| TxRing.OverfullIff | packages/aic8800/usr/src/aic8800-1.0.8/aic8800_fdrv/ipc_host.c:252-258 | the queue left is one too long, a push lost, if and only if the handler stops at a refusal whose callback offered at least as many ids as the ring had room for with the head out |
| TxRing.TxQueue.HandleConfirmations | packages/aic8800/usr/src/aic8800-1.0.8/aic8800_fdrv/ipc_host.c:226-266 | the loop with speculative advance and roll-back does what the FIFO specification says, whatever the callbacks push and however they answer; the ring is valid afterwards if and only if the queue left fits it |
| TxRing.RefuseOnFull | packages/aic8800/usr/src/aic8800-1.0.8/aic8800_fdrv/ipc_host.c:237-258 | on any full ring an id pushed by a callback that then refuses is in no slot afterwards, though it was pushed and never taken |
| TxRing.LosesAPush | packages/aic8800/usr/src/aic8800-1.0.8/aic8800_fdrv/ipc_host.c:237-258 | such a ring, from its initialisation: eight ids pushed, the ninth pushed and refused, and lost |
| TxRing.IpcHostEnv.FramesPending | packages/aic8800/usr/src/aic8800-1.0.8/aic8800_fdrv/ipc_host.c:271-294 | true if and only if some ring holds an id |
| TcpAckSlot.BeforeIff | packages/aic8800/usr/src/aic8800-1.0.8/aic8800_fdrv/aicwf_tcp_ack.h:18 | serial numbers: a number is before the 2^31 next ones and itself, and none of the 2^31 - 1 next ones is before it |
| TcpAckSlot.StaleIsFreed | packages/aic8800/usr/src/aic8800-1.0.8/aic8800_fdrv/aicwf_tcp_ack.c:464-466 | an ACK 1 to 2^31 - 1 numbers behind the recorded one is freed, and nothing the slot holds, records or counts changes |
| TcpAckSlot.AdvanceIsTaken | packages/aic8800/usr/src/aic8800-1.0.8/aic8800_fdrv/aicwf_tcp_ack.c:464-527 | an ACK up to 2^31 numbers ahead is recorded and takes the place of a held one; it is sent or held and timed, without a PSH mark sent if and only if no send is outstanding and the count reaches the maximum |
| TcpAckSlot.PushIff | packages/aic8800/usr/src/aic8800-1.0.8/aic8800_fdrv/aicwf_tcp_ack.c:464-480 | an ACK 1 to 2^31 - 1 numbers past a PSH mark is sent at once and takes the mark; one at it or as far behind is treated as without the mark, which stays |
| TcpAckSlot.PlaceIs | packages/aic8800/usr/src/aic8800-1.0.8/aic8800_fdrv/aicwf_tcp_ack.c:464-479 | a number less than 2^31 ahead of the recorded one or behind it is placed at that very distance |
| TcpAckSlot.ProgressStep | packages/aic8800/usr/src/aic8800-1.0.8/aic8800_fdrv/aicwf_tcp_ack.c:447-527 | no slot step loses progress or moves the recorded number backwards under U32_BEFORE |
| TcpAckSlot.ProgressKept | packages/aic8800/usr/src/aic8800-1.0.8/aic8800_fdrv/aicwf_tcp_ack.c:447-527 | in every tenure that begins with nothing held, a held buffer acknowledges the recorded number, that number is held or was sent, and no dropped ACK was ahead of it; numbers are compared unwrapped |
| TcpAckSlot.NeverBackwards | packages/aic8800/usr/src/aic8800-1.0.8/aic8800_fdrv/aicwf_tcp_ack.c:464-479 | over any stretch of a tenure the recorded number does not move backwards |
| TcpAckSlot.FirstAdvanceFreesLeftover | packages/aic8800/usr/src/aic8800-1.0.8/aic8800_fdrv/aicwf_tcp_ack.c:599-619 | why the tenure must begin with nothing held: after any completions, PSH marks, stale ACKs and timers that find nothing they may send, its first advancing ACK frees what the slot still held of the flow before |
| TcpAckSlot.StarvedTenure | packages/aic8800/usr/src/aic8800-1.0.8/aic8800_fdrv/aicwf_tcp_ack.c:599-645 | a slot that ages out during a send ignores the completion of that send, and the mark of it passes to the next tenure: over every run without a PSH mark and without that completion again, the tenure sends nothing |
| TcpAckSlot.FirstAdvanceSentIff | packages/aic8800/usr/src/aic8800-1.0.8/aic8800_fdrv/aicwf_tcp_ack.c:599-619 | after any stale ACKs and any timers that find nothing they may send, the first advancing ACK of a tenure is sent at once if and only if the slot took over no mark of a send outstanding |
| TcpAckSlot.TimedUnlessBlocked | packages/aic8800/usr/src/aic8800-1.0.8/aic8800_fdrv/aicwf_tcp_ack.c:30-61 | a held buffer keeps a pending timer through every event but one: a timer that fires during a send or in a slot that has aged out |
| TcpAckSlot.StaysTimed | packages/aic8800/usr/src/aic8800-1.0.8/aic8800_fdrv/aicwf_tcp_ack.c:30-61 | so over every run without such an event a held buffer has a pending timer |
| TcpAckSlot.StuckUntilAdvance | packages/aic8800/usr/src/aic8800-1.0.8/aic8800_fdrv/aicwf_tcp_ack.c:30-61 | after such an event, and over every run in which a timer comes only while it is pending, the buffer is neither sent nor freed nor timed again, and the slot sends nothing, until the next advancing ACK |
| TcpAckSlot.SuppressionBound | packages/aic8800/usr/src/aic8800-1.0.8/aic8800_fdrv/aicwf_tcp_ack.c:464-500 | while no send is outstanding at most the maximum drop count less one advancing ACKs are withheld in a row, over every interleaving with timer, completion and PSH |
| TcpAckSlot.BoundIsReached | packages/aic8800/usr/src/aic8800-1.0.8/aic8800_fdrv/aicwf_tcp_ack.c:476-498 | the bound is reached: after a send, any run of fewer than the maximum drop count of advancing ACKs is withheld whole, and the next is forwarded if and only if it is the one that reaches the count |
| TcpAckSlot.PushIsAckedAtOnce | packages/aic8800/usr/src/aic8800-1.0.8/aic8800_fdrv/aicwf_tcp_ack.c:464-552 | over every run of timers, completions and other ACKs after a PSH mark, and until another mark, the first advancing ACK past the marked number is forwarded at once, whatever is outstanding |
| TcpAckFilter.AllocFindsFree | packages/aic8800/usr/src/aic8800-1.0.8/aic8800_fdrv/aicwf_tcp_ack.c:313-348 | allocation fails if and only if all 32 slots are busy, and never yields a busy one |
| TcpAckFilter.MatchFromFinds | packages/aic8800/usr/src/aic8800-1.0.8/aic8800_fdrv/aicwf_tcp_ack.c:260-285 | the match is a busy slot of that 4-tuple, or there is none |
| TcpAckFilter.MatchIsUnique | packages/aic8800/usr/src/aic8800-1.0.8/aic8800_fdrv/aicwf_tcp_ack.c:260-285 | a busy slot of a 4-tuple is the one that is matched |
| TcpAckFilter.UpdateKeeps | packages/aic8800/usr/src/aic8800-1.0.8/aic8800_fdrv/aicwf_tcp_ack.c:288-310 | ageing clears the busy flag of exactly the aged slots and keeps the allocator invariant |
| TcpAckFilter.StepKeepsInv | packages/aic8800/usr/src/aic8800-1.0.8/aic8800_fdrv/aicwf_tcp_ack.c:288-623 | every handler call keeps: the busy count is exact, the cached free index is free, no two busy slots carry one 4-tuple |
| TcpAckFilter.StepConserves | packages/aic8800/usr/src/aic8800-1.0.8/aic8800_fdrv/aicwf_tcp_ack.c:447-645 | one handler call neither creates nor loses a copy of any buffer: what was held or given is held, handed on or freed |
| TcpAckFilter.RunConserves | packages/aic8800/usr/src/aic8800-1.0.8/aic8800_fdrv/aicwf_tcp_ack.c:30-645 | over every run from tcp_ack_init: given = held + handed on + freed, for each buffer, and the allocator invariant holds |
| TcpAckFilter.OwnedOnce | packages/aic8800/usr/src/aic8800-1.0.8/aic8800_fdrv/aicwf_tcp_ack.c:30-645 | a buffer given once is at any time sent once, or freed once, or held in exactly one slot, and only one of these |
| TcpAckFilter.NothingHeldAfterDeinit | packages/aic8800/usr/src/aic8800-1.0.8/aic8800_fdrv/aicwf_tcp_ack.c:96-121 | after tcp_ack_deinit no slot holds a buffer, whatever calls follow |
| TcpAckFilter.StepActsOnSlot | packages/aic8800/usr/src/aic8800-1.0.8/aic8800_fdrv/aicwf_tcp_ack.c:447-645 | each handler call leaves a busy slot's decisions alone or is the slot step on it, with the same buffers sent and freed |
| TcpAckFilter.RunIsTenure | packages/aic8800/usr/src/aic8800-1.0.8/aic8800_fdrv/aicwf_tcp_ack.c:447-645 | in every run of the whole filter, until it ages out, a slot goes through its tenure as the slot model has it, whatever the other 31 slots do |
| TcpAckFilter.UsedStays | packages/aic8800/usr/src/aic8800-1.0.8/aic8800_fdrv/aicwf_tcp_ack.c:288-336 | a slot opened or given an ACK at some time is not taken from its flow in any run whose frames come within the timeout after it |
| TcpAckFilter.ProgressInRun | packages/aic8800/usr/src/aic8800-1.0.8/aic8800_fdrv/aicwf_tcp_ack.c:447-645 | so in every such run a held buffer acknowledges the recorded number, and otherwise that number was sent |
| TcpAckFilter.ProgressFromInit | packages/aic8800/usr/src/aic8800-1.0.8/aic8800_fdrv/aicwf_tcp_ack.c:30-645 | in every run from tcp_ack_init, once a call has opened a tenure of a slot that held nothing and while it lasts, no ACK was dropped beyond the recorded number, and that number is held or was sent, the opening ACK included |
| TcpAckFilter.PushInRun | packages/aic8800/usr/src/aic8800-1.0.8/aic8800_fdrv/aicwf_tcp_ack.c:447-645 | in every run of the whole filter, after a received PSH segment of a flow and until another, the first advancing ACK of the flow past it is handed on at once |
| TcpAckFilter.StarvedInRun | packages/aic8800/usr/src/aic8800-1.0.8/aic8800_fdrv/aicwf_tcp_ack.c:447-645 | in every run of the whole filter, while a slot waits for a completion that does not come and its flow has no PSH mark, neither an ACK given to it nor its timer makes the filter send anything |
| TcpAckFilter.StuckIsReachable | packages/aic8800/usr/src/aic8800-1.0.8/aic8800_fdrv/aicwf_tcp_ack.c:30-61 | a run from tcp_ack_init that leaves a buffer held with no timer and no send outstanding: the timer fires during a send |
| TcpAckFilter.LeftoverIsReachable | packages/aic8800/usr/src/aic8800-1.0.8/aic8800_fdrv/aicwf_tcp_ack.c:288-310 | that run continued: the slot ages out and is reused, and the new flow's first advancing ACK frees the newest ACK of the old one |
| TcpAckFilter.StarvedIsReachable | packages/aic8800/usr/src/aic8800-1.0.8/aic8800_fdrv/aicwf_tcp_ack.c:288-310 | a run from tcp_ack_init that leaves a slot so: it ages out during a send, the send is completed, and a new flow takes the slot |
| TcpAckManager.AckManager.constructor | packages/aic8800/usr/src/aic8800-1.0.8/aic8800_fdrv/aicwf_tcp_ack.c:63-94 | the initial state, free slots only |
| TcpAckManager.AckManager.AgeSlots | packages/aic8800/usr/src/aic8800-1.0.8/aic8800_fdrv/aicwf_tcp_ack.c:288-310 | the downward loop releases aged slots as the specification says |
| TcpAckManager.AckManager.Match | packages/aic8800/usr/src/aic8800-1.0.8/aic8800_fdrv/aicwf_tcp_ack.c:260-285 | the index of the owner of the flow, or -1 if and only if no busy slot follows it |
| TcpAckManager.AckManager.Alloc | packages/aic8800/usr/src/aic8800-1.0.8/aic8800_fdrv/aicwf_tcp_ack.c:313-348 | -1 if and only if all slots are busy, else a free slot; count and cached index as specified |
| TcpAckManager.AckManager.HandleNew | packages/aic8800/usr/src/aic8800-1.0.8/aic8800_fdrv/aicwf_tcp_ack.c:447-527 | the slot takes the specified step; return value 0 if and only if the caller may transmit the buffer; the dropped buffer is the one freed |
| TcpAckManager.AckManager.FilterSend | packages/aic8800/usr/src/aic8800-1.0.8/aic8800_fdrv/aicwf_tcp_ack.c:555-623 | the whole state is the specified one, and return value and dropped buffer tell who owns the frame |
| TcpAckManager.AckManager.Open | packages/aic8800/usr/src/aic8800-1.0.8/aic8800_fdrv/aicwf_tcp_ack.c:599-619 | the free slot is set up field by field, and the buffers of its last tenure stay |
| TcpAckManager.AckManager.FilterReceive | packages/aic8800/usr/src/aic8800-1.0.8/aic8800_fdrv/aicwf_tcp_ack.c:529-552 | marks the PSH number in the flow's slot only, and only while enabled |
| TcpAckManager.AckManager.Timeout | packages/aic8800/usr/src/aic8800-1.0.8/aic8800_fdrv/aicwf_tcp_ack.c:30-61 | hands the held buffer on if no send is outstanding, and frees none, in every state, also when the handler comes late |
| TcpAckManager.AckManager.MoveMsg | packages/aic8800/usr/src/aic8800-1.0.8/aic8800_fdrv/aicwf_tcp_ack.c:625-645 | clears the outstanding mark of the completed buffer |
| TcpAckManager.AckManager.Shutdown | packages/aic8800/usr/src/aic8800-1.0.8/aic8800_fdrv/aicwf_tcp_ack.c:96-121 | frees every held buffer once, in slot order, and leaves none held |
| TcpAckManager.AckManager.DropHeld | packages/aic8800/usr/src/aic8800-1.0.8/aic8800_fdrv/aicwf_tcp_ack.c:105-120 | one slot gives up its buffer and its timer |
| NatRecords.HashIs | packages/aic8800/usr/src/aic8800-1.0.8/aic8800_fdrv/aic_br_ext.c:311-360 | the bucket is the exclusive or of the bytes listed for the kind of address, in its lower four bits |
| NatRecords.XorIs | packages/aic8800/usr/src/aic8800-1.0.8/aic8800_fdrv/aic_br_ext.c:316 | of bytes as bits it is their bitwise exclusive or |
| NatRecords.ExpiredIff | packages/aic8800/usr/src/aic8800-1.0.8/aic8800_fdrv/aic_br_ext.c:128-145 | a record d ticks old is expired if and only if d has reached the limit, for d below 2^31 and limits up to 2^31, across the wrap of the ticks |
| NatRecords.LookupAfter | packages/aic8800/usr/src/aic8800-1.0.8/aic8800_fdrv/aic_br_ext.c:403-408 | a lookup d ticks after the last refresh counts a use if and only if d is below the limit |
| NatRecords.PassAfter | packages/aic8800/usr/src/aic8800-1.0.8/aic8800_fdrv/aic_br_ext.c:667-697 | an expiry pass d ticks after the last refresh leaves the record if d is below the limit, else it takes a use, or with the last use the record |
| NatRecords.PutIsUpdate | packages/aic8800/usr/src/aic8800-1.0.8/aic8800_fdrv/aic_br_ext.c:469-504 | insertion is map update: its key has the new MAC and age and keeps its use count, or starts with one; no other key changes; keys stay unique and used |
| NatRecords.TouchIsUpdate | packages/aic8800/usr/src/aic8800-1.0.8/aic8800_fdrv/aic_br_ext.c:396-466 | lookup adds a use to its key if that is unexpired, and changes nothing else |
| NatRecords.ExpireIsFilter | packages/aic8800/usr/src/aic8800-1.0.8/aic8800_fdrv/aic_br_ext.c:621-705 | a pass takes one use from each expired record, drops those that had one left, keeps all others as they are and adds none |
| NatRecords.ExpireKeepsOrder | packages/aic8800/usr/src/aic8800-1.0.8/aic8800_fdrv/aic_br_ext.c:632-700 | the rest of a chain stays in order |
| NatRecords.GoneAtNthPass | packages/aic8800/usr/src/aic8800-1.0.8/aic8800_fdrv/aic_br_ext.c:636-696 | a record expired and untouched with n uses loses one at each pass and is gone at the n-th, neither earlier nor later |
| NatRecords.UnexpiredStays | packages/aic8800/usr/src/aic8800-1.0.8/aic8800_fdrv/aic_br_ext.c:636 | a record is never dropped while unexpired, however many passes run |
| NatTable.LinkKeeps | packages/aic8800/usr/src/aic8800-1.0.8/aic8800_fdrv/aic_br_ext.c:363-377 | linking a new entry at the head keeps acyclic, disjoint chains in which every pprev names the very link that reaches its entry, and every entry hangs in the bucket of its hash |
| NatTable.UnlinkKeeps | packages/aic8800/usr/src/aic8800-1.0.8/aic8800_fdrv/aic_br_ext.c:380-393 | unlinking any entry through its pprev keeps all that and takes out that record only |
| NatTable.UnlinkEffect | packages/aic8800/usr/src/aic8800-1.0.8/aic8800_fdrv/aic_br_ext.c:386-388 | only the link that reached the entry and the back link of its successor change |
| NatTable.DataKeeps | packages/aic8800/usr/src/aic8800-1.0.8/aic8800_fdrv/aic_br_ext.c:480-483 | storing new data keeps all links and changes one record |
| NatTable.KeyIs | packages/aic8800/usr/src/aic8800-1.0.8/aic8800_fdrv/aic_br_ext.c:148-155 | the key of an IP address: type 1, the address at places 7 to 10, zeros elsewhere |
| NatTable.KeysDiffer | packages/aic8800/usr/src/aic8800-1.0.8/aic8800_fdrv/aic_br_ext.c:148-155 | different IP addresses have different keys |
| NatTable.Table.constructor | packages/aic8800/usr/src/aic8800-1.0.8/aic8800_fdrv/rwnx_defs.h:478 | an empty table with empty buckets |
| NatTable.Table.FindEntry | packages/aic8800/usr/src/aic8800-1.0.8/aic8800_fdrv/aic_br_ext.c:1543-1567 | the walk finds the first entry with the address, or null if and only if there is none |
| NatTable.Table.LinkEntry | packages/aic8800/usr/src/aic8800-1.0.8/aic8800_fdrv/aic_br_ext.c:363-377 | the in-place linking is the one the structure lemmas are about |
| NatTable.Table.UnlinkEntry | packages/aic8800/usr/src/aic8800-1.0.8/aic8800_fdrv/aic_br_ext.c:380-393 | the same for unlinking |
| NatTable.Table.LookupAndReplace | packages/aic8800/usr/src/aic8800-1.0.8/aic8800_fdrv/aic_br_ext.c:396-466 | 1 if and only if the key is present; the frame's destination is overwritten if and only if it is also unexpired, which counts a use |
| NatTable.Table.Insert | packages/aic8800/usr/src/aic8800-1.0.8/aic8800_fdrv/aic_br_ext.c:469-504 | the map is updated at the key; without memory a new key is not added and nothing changes |
| NatTable.Table.AddEntry | packages/aic8800/usr/src/aic8800-1.0.8/aic8800_fdrv/aic_br_ext.c:490-501 | the allocated entry becomes the first of its bucket |
| NatTable.Table.UnlinkAndFree | packages/aic8800/usr/src/aic8800-1.0.8/aic8800_fdrv/aic_br_ext.c:694-695 | the entry leaves its chain and the memory, the others stay in order |
| NatTable.Table.DropShortcut | packages/aic8800/usr/src/aic8800-1.0.8/aic8800_fdrv/aic_br_ext.c:689-693 | the shortcut is forgotten if and only if it points at the entry about to be freed |
| NatTable.Table.RemoveEntry | packages/aic8800/usr/src/aic8800-1.0.8/aic8800_fdrv/aic_br_ext.c:689-695 | entry and shortcut together: the shortcut is null or still points at a linked entry |
| NatTable.Table.ExpireEntry | packages/aic8800/usr/src/aic8800-1.0.8/aic8800_fdrv/aic_br_ext.c:634-699 | one entry ages as specified, and the saved next pointer is the next entry still to visit |
| NatTable.Table.ExpireBucket | packages/aic8800/usr/src/aic8800-1.0.8/aic8800_fdrv/aic_br_ext.c:630-700 | each entry of the chain is visited once |
| NatTable.Table.ExpirePass | packages/aic8800/usr/src/aic8800-1.0.8/aic8800_fdrv/aic_br_ext.c:621-705 | all sixteen chains are those an expiry pass leaves; the shortcut is forgotten if and only if its entry was freed |
| NatTable.Table.Cleanup | packages/aic8800/usr/src/aic8800-1.0.8/aic8800_fdrv/aic_br_ext.c:593-618 | all buckets are empty and all memory freed; no shortcut is left if and only if there was an entry in it or it recorded no client |
| NatTable.Table.CleanupBucket | packages/aic8800/usr/src/aic8800-1.0.8/aic8800_fdrv/aic_br_ext.c:599-614 | one chain is emptied, the others stay |
| NatTable.Table.UpdateShortcut | packages/aic8800/usr/src/aic8800-1.0.8/aic8800_fdrv/rwnx_tx.c:1106-1129 | the shortcut follows the client's MAC to the record of its address and refreshes its age, and that record keeps its own MAC; a shortcut without entry records no client afterwards if and only if the MAC is the recorded one, or the address has a record, or nothing was recorded; shortcut and record agree on the MAC if and only if they did for an unchanged MAC, or the address has no record of another one |
| NatTable.Table.ClientFrame | packages/aic8800/usr/src/aic8800-1.0.8/aic8800_fdrv/rwnx_tx.c:1081-1193 | of all addresses only that of the frame can change its MAC, and it takes the sender's if and only if the shortcut finds no entry, the address is not zero and there is memory or a record: whoever sends from a recorded address, it keeps its MAC unless the sender is the client of a shortcut without entry, and the holder of the shortcut sends from new addresses unrecorded |
| NatTable.Table.EntryIsRecord | packages/aic8800/usr/src/aic8800-1.0.8/aic8800_fdrv/rwnx_tx.c:1106-1129 | the entry of the shortcut is the record that the table has for the shortcut's address |
| NatTable.Table.ShortcutHasRecord | packages/aic8800/usr/src/aic8800-1.0.8/aic8800_fdrv/rwnx_tx.c:1106-1129 | a shortcut with an entry records an address that the table has |
| VlanFrame.RestoreUndoesStrip | packages/aic8800/usr/src/aic8800-1.0.8/aic8800_fdrv/aic_br_ext.c:1391-1434 | whatever destination is written in between, restoring the tag gives the original frame with that destination and nothing else changed |
| VlanFrame.RestoreUndoesStripUntouched | packages/aic8800/usr/src/aic8800-1.0.8/aic8800_fdrv/aic_br_ext.c:1391-1434 | with no write in between the buffer is byte-identical |
| VlanFrame.StripTag | packages/aic8800/usr/src/aic8800-1.0.8/aic8800_fdrv/aic_br_ext.c:1393-1396 | the overlapping word moves, last word first, move both addresses up by four bytes over the tag |
| VlanFrame.RestoreTag | packages/aic8800/usr/src/aic8800-1.0.8/aic8800_fdrv/aic_br_ext.c:1429-1433 | the moves in the other direction, first word first, move them back and rewrite the tag |
| VlanFrame.ModelledIs | packages/aic8800/usr/src/aic8800-1.0.8/aic8800_fdrv/aic_br_ext.c:752-1372 | the frames covered, by EtherType: all but 0806, 8137, 809b, 80f3, 8863, 8864 and 86dd |
| VlanFrame.Bridge.DbLookup | packages/aic8800/usr/src/aic8800-1.0.8/aic8800_fdrv/aic_br_ext.c:736-813 | the lookup branches for IPv4, EAP, C-Media and unknown protocols: malformed and unknown ones refused untouched, an IPv4 destination from the table, broadcast, or the bridge's own MAC |
| VlanFrame.Bridge.HandleUntagged | packages/aic8800/usr/src/aic8800-1.0.8/aic8800_fdrv/aic_br_ext.c:1399-1426 | shortcut, database or nothing, as the switches say; at most the destination changes |
| VlanFrame.Bridge.HandleTagged | packages/aic8800/usr/src/aic8800-1.0.8/aic8800_fdrv/aic_br_ext.c:1387-1434 | a tagged frame is treated as the frame without tag, and leaves with tag, source and payload unchanged |
| VlanFrame.Bridge.HandleFrame | packages/aic8800/usr/src/aic8800-1.0.8/aic8800_fdrv/aic_br_ext.c:1366-1443 | the same for all frames of these protocols: multicast untouched, -1 if and only if a lookup was made and refused the frame |
| VlanFrame.Bridge.ViaShortcutIsLive | packages/aic8800/usr/src/aic8800-1.0.8/aic8800_fdrv/aic_br_ext.c:1407-1410 | a frame that takes a shortcut with an entry goes to a client the table has |
| VlanFrame.Bridge.ShortcutIsLookupIff | packages/aic8800/usr/src/aic8800-1.0.8/aic8800_fdrv/aic_br_ext.c:1407-1426 | for every frame that takes a shortcut with an entry: it gets the destination the lookup would give it if and only if the frame is not malformed, the record not expired, and the shortcut's MAC the recorded one |
| VlanFrame.UnrecordedDestination | packages/aic8800/usr/src/aic8800-1.0.8/aic8800_fdrv/aic_br_ext.c:792-806 | a frame to an address without record goes to all if the address ends in 255, else to the bridge, or to the device while the bridge's MAC is not known |
| VlanFrame.RecordedDestination | packages/aic8800/usr/src/aic8800-1.0.8/aic8800_fdrv/aic_br_ext.c:402-408 | a frame to an address whose record is d ticks old goes to the recorded MAC if d is below the limit, and is left as it is otherwise |
| VlanFrame.OneOther | packages/aic8800/usr/src/aic8800-1.0.8/aic8800_fdrv/rwnx_tx.c:1081-1193 | a frame from one address leaves every other without record as it was |
| VlanFrame.Others | packages/aic8800/usr/src/aic8800-1.0.8/aic8800_fdrv/rwnx_tx.c:1081-1193 | over every run of client frames, an address none of them came from gets no record and no shortcut |
| VlanFrame.StrangersDestination | packages/aic8800/usr/src/aic8800-1.0.8/aic8800_fdrv/aic_br_ext.c:1399-1426 | so a frame to it goes to no client: to all, to the bridge or to the device |
| VlanFrame.EmptyShortcut | packages/aic8800/usr/src/aic8800-1.0.8/aic8800_fdrv/aic_br_ext.c:1407-1410 | a shortcut that records no client takes exactly the IPv4 frames to 0.0.0.0, and rewrites them to the zero MAC |
| VlanFrame.LeaveStale | packages/aic8800/usr/src/aic8800-1.0.8/aic8800_fdrv/rwnx_tx.c:1106-1129 | from every table: a client without record, other than the recorded one, leaves MAC and address of that one in the shortcut even when the table is then cleaned up |
| VlanFrame.ServesFreedClient | packages/aic8800/usr/src/aic8800-1.0.8/aic8800_fdrv/aic_br_ext.c:1407-1410 | a run in which frames to a client the table no longer has are still rewritten to it, at every later time |
| VlanFrame.MoveClient | packages/aic8800/usr/src/aic8800-1.0.8/aic8800_fdrv/rwnx_tx.c:1106-1129 | in every empty table, for every address: after two clients sent from it the shortcut has the newer, the record the older, with its age refreshed |
| VlanFrame.MovedClient | packages/aic8800/usr/src/aic8800-1.0.8/aic8800_fdrv/rwnx_tx.c:1106-1129 | a run in which two clients send from one address: frames to it go to the newer one by the shortcut and would go to the older one by the table |
| PppoeRelay.EncodeConcat | packages/aic8800/usr/src/aic8800-1.0.8/aic8800_fdrv/aic_br_ext.c:75-83 | tag lists are encoded one after the other (RFC 2516 section 5) |
| PppoeRelay.TagAt | packages/aic8800/usr/src/aic8800-1.0.8/aic8800_fdrv/aic_br_ext.c:77-82 | each tag of a well-formed list is found with its type, length and value at its offset |
| PppoeRelay.FrameIsWellFormed | packages/aic8800/usr/src/aic8800-1.0.8/aic8800_fdrv/aic_br_ext.c:70-85 | every list of tags that the length field can count makes a frame that is covered, behind any header and with any padding |
| PppoeRelay.FindTag | packages/aic8800/usr/src/aic8800-1.0.8/aic8800_fdrv/aic_br_ext.c:70-85 | the offset of the first tag of the kind, or null if and only if the list has none |
| PppoeRelay.PullAndMerge | packages/aic8800/usr/src/aic8800-1.0.8/aic8800_fdrv/aic_br_ext.c:107-126 | cuts the bytes out of the frame, or refuses and changes nothing if and only if the cut passes the end |
| PppoeRelay.CutOut | packages/aic8800/usr/src/aic8800-1.0.8/aic8800_fdrv/aic_br_ext.c:120-124 | what follows the cut moves down over it, and the frame is that much shorter |
| PppoeRelay.RelayedIsWellFormed | packages/aic8800/usr/src/aic8800-1.0.8/aic8800_fdrv/aic_br_ext.c:1210-1221 | the result is a well-formed frame again, eight or twelve bytes shorter, its length field equal to the tag bytes |
| PppoeRelay.EditIsRelayed | packages/aic8800/usr/src/aic8800-1.0.8/aic8800_fdrv/aic_br_ext.c:1210-1221 | the bytes the edit leaves are the encoding of the list with only magic and MAC cut out, or without the whole tag when it held nothing else |
| PppoeRelay.Edit | packages/aic8800/usr/src/aic8800-1.0.8/aic8800_fdrv/aic_br_ext.c:1210-1221 | memcpy, cut and the two length fields, in the source's order |
| PppoeRelay.FindRelay | packages/aic8800/usr/src/aic8800-1.0.8/aic8800_fdrv/aic_br_ext.c:1188-1208 | accepts if and only if the first relay tag has room for magic and MAC and carries the magic |
| PppoeRelay.RemoveRelayTag | packages/aic8800/usr/src/aic8800-1.0.8/aic8800_fdrv/aic_br_ext.c:1181-1221 | for every well-formed tag list: 0 and the relayed frame, addressed to the client, if and only if it carries a client; else -1 and not a byte changed |
| DhcpChecksum.FoldIsRemainder | packages/aic8800/usr/src/aic8800-1.0.8/aic8800_fdrv/aic_br_ext.c:1528-1529 | folding carries keeps the value modulo 65535 and gives zero only for zero (RFC 1071) |
| DhcpChecksum.VerifiesIff | packages/aic8800/usr/src/aic8800-1.0.8/aic8800_fdrv/aic_br_ext.c:1526-1530 | a datagram verifies if and only if its word sum is a positive multiple of 65535 |
| DhcpChecksum.UpdatedSum | packages/aic8800/usr/src/aic8800-1.0.8/aic8800_fdrv/aic_br_ext.c:1524-1530 | after the update the sum is, modulo 65535, what it was without the old flags word |
| DhcpChecksum.StillVerifiesIff | packages/aic8800/usr/src/aic8800-1.0.8/aic8800_fdrv/aic_br_ext.c:1524-1530 | words that verified verify after the update if and only if the flags word was zero, since the code adds the whole word (RFC 1624 section 3 adds the difference) |
| DhcpChecksum.AbsentChecksum | packages/aic8800/usr/src/aic8800-1.0.8/aic8800_fdrv/aic_br_ext.c:1524-1530 | a datagram sent without checksum comes out with one, which verifies if and only if its other words summed to a multiple of 65535 |
| DhcpChecksum.SwapVerifies | packages/aic8800/usr/src/aic8800-1.0.8/aic8800_fdrv/aic_br_ext.c:1526-1530 | byte order does not matter for verification |
| DhcpChecksum.DatagramStillVerifiesIff | packages/aic8800/usr/src/aic8800-1.0.8/aic8800_fdrv/aic_br_ext.c:1516-1533 | on a host of either byte order, for a datagram of any length and any pseudo-header, the same about the bytes of the frame: it still verifies if and only if both flags bytes were zero (RFC 2131 section 2) |
| DhcpChecksum.OddPadded | packages/aic8800/usr/src/aic8800-1.0.8/aic8800_fdrv/aic_br_ext.c:1524-1530 | a datagram of odd length is summed as if a zero byte followed (RFC 768) |
| DhcpChecksum.ReservedFlagFails | packages/aic8800/usr/src/aic8800-1.0.8/aic8800_fdrv/aic_br_ext.c:1498-1530 | a DHCP request that the code edits, with a reserved flag set: its datagram, summed over its pseudo-header, verifies before the edit and not after it |
| DhcpChecksum.FoldCarries | packages/aic8800/usr/src/aic8800-1.0.8/aic8800_fdrv/aic_br_ext.c:1528-1529 | the loop ends with the folded sum |
| DhcpChecksum.UnicastRequestIs | packages/aic8800/usr/src/aic8800-1.0.8/aic8800_fdrv/aic_br_ext.c:1498-1523 | which frames are edited, byte by byte: EtherType 0800, protocol 17, ports 68 to 67 behind an IP header of any length, the cookie at 244, no flag |
| DhcpChecksum.ReadableLengths | packages/aic8800/usr/src/aic8800-1.0.8/aic8800_fdrv/aic_br_ext.c:1498-1523 | the frames covered need be no longer than what the code looks at |
| DhcpChecksum.SetBroadcast | packages/aic8800/usr/src/aic8800-1.0.8/aic8800_fdrv/aic_br_ext.c:1524-1530 | one flag bit and the two checksum bytes change in the buffer |
| DhcpChecksum.DhcpFlagBroadcast | packages/aic8800/usr/src/aic8800-1.0.8/aic8800_fdrv/aic_br_ext.c:1498-1540 | exactly the unicast DHCP requests are edited; any other frame stays as it is |
| FrameQueue.Highest | packages/aic8800/usr/src/aic8800-1.0.8/aic8800_fdrv/aicwf_txrxif.c:1226-1246 | a full scan: no class above holds a frame |
| FrameQueue.Lowest | packages/aic8800/usr/src/aic8800-1.0.8/aic8800_fdrv/aicwf_txrxif.c:1196-1211 | a full scan: no class below holds a frame |
| FrameQueue.Target | packages/aic8800/usr/src/aic8800-1.0.8/aic8800_fdrv/aicwf_txrxif.c:1261-1291 | a frame goes into its own class if and only if there is room; else into the lowest class with a frame, which is strictly lower |
| FrameQueue.RejectsIff | packages/aic8800/usr/src/aic8800-1.0.8/aic8800_fdrv/aicwf_txrxif.c:1261-1287 | a frame is turned away if and only if as many frames as the maximum are queued and no lower class has one |
| FrameQueue.EntersLowerClass | packages/aic8800/usr/src/aic8800-1.0.8/aic8800_fdrv/aicwf_txrxif.c:1281-1287 | an input on which a frame of class 1 takes a place in class 0 |
| FrameQueue.StepBounded | packages/aic8800/usr/src/aic8800-1.0.8/aic8800_fdrv/aicwf_txrxif.c:1150-1291 | the class lengths never add up to more than the maximum |
| FrameQueue.RunConserves | packages/aic8800/usr/src/aic8800-1.0.8/aic8800_fdrv/aicwf_txrxif.c:1150-1291 | over every run each offered frame is rejected, queued, handed out or freed, as often as it was offered, and the bound holds |
| FrameQueue.RunKeepsOrder | packages/aic8800/usr/src/aic8800-1.0.8/aic8800_fdrv/aicwf_txrxif.c:1150-1291 | over every run a class hands out the frames put into it in that order, evicted and flushed ones left out |
| FrameQueue.DrainOrder | packages/aic8800/usr/src/aic8800-1.0.8/aic8800_fdrv/aicwf_txrxif.c:1226-1246 | dequeueing until nothing comes yields the classes from the most urgent down, each in order |
| FrameQueue.PrioQueue.constructor | packages/aic8800/usr/src/aic8800-1.0.8/aic8800_fdrv/aicwf_txrxif.c:1183-1194 | an empty queue; the maximum is cut to 16 bits |
| FrameQueue.PrioQueue.Penq | packages/aic8800/usr/src/aic8800-1.0.8/aic8800_fdrv/aicwf_txrxif.c:1150-1164 | appends to the class unless that is full; no frame is above the hint afterwards |
| FrameQueue.PrioQueue.PeekTail | packages/aic8800/usr/src/aic8800-1.0.8/aic8800_fdrv/aicwf_txrxif.c:1196-1211 | null if and only if the queue is empty, else the newest frame of the lowest non-empty class |
| FrameQueue.PrioQueue.IsEmpty | packages/aic8800/usr/src/aic8800-1.0.8/aic8800_fdrv/aicwf_txrxif.c:1213-1224 | the sum up to the hint is zero if and only if every class is empty, and if and only if the count is zero |
| FrameQueue.PrioQueue.DequeueFrame | packages/aic8800/usr/src/aic8800-1.0.8/aic8800_fdrv/aicwf_txrxif.c:1226-1246 | null if and only if the count is zero, else the oldest frame of the class a full scan finds highest |
| FrameQueue.PrioQueue.TakeNewest | packages/aic8800/usr/src/aic8800-1.0.8/aic8800_fdrv/aicwf_txrxif.c:1248-1259 | takes the newest frame of a class, if there is one |
| FrameQueue.PrioQueue.Enqueue | packages/aic8800/usr/src/aic8800-1.0.8/aic8800_fdrv/aicwf_txrxif.c:1261-1291 | accepts, evicts or rejects as specified; a full queue accepts only by replacing the newest frame of the lowest non-empty, strictly lower class |
| FrameQueue.PrioQueue.Replace | packages/aic8800/usr/src/aic8800-1.0.8/aic8800_fdrv/aicwf_txrxif.c:1281-1287 | the new frame has the very place of the evicted one |
| FrameQueue.PrioQueue.FlushAll | packages/aic8800/usr/src/aic8800-1.0.8/aic8800_fdrv/aicwf_txrxif.c:1166-1181 | every queued frame is freed once, class by class, and the count returns to zero |
| UsbReassembly.FreshWhole | packages/aic8800/usr/src/aic8800-1.0.8/aic8800_fdrv/aicwf_usb.c:668-716 | a well-formed packet in one transfer is delivered |
| UsbReassembly.FreshStart | packages/aic8800/usr/src/aic8800-1.0.8/aic8800_fdrv/aicwf_usb.c:676-693 | the first transfer of a longer one opens a buffer of the declared length |
| UsbReassembly.StreamIsDelivered | packages/aic8800/usr/src/aic8800-1.0.8/aic8800_fdrv/aicwf_usb.c:579-736 | reassembly inverts fragmentation: any stream of well-formed packets, cut into full transfers and remainders and mixed with transfers that fail or are empty, is delivered once, in order and byte-identical, if allocation succeeds |
| UsbReassembly.WellFormedIff | packages/aic8800/usr/src/aic8800-1.0.8/aic8800_fdrv/aicwf_usb.c:668-716 | a packet is well-formed if and only if it starts with some length, low byte first, and type 0x11, and has the least number of whole words for length and header, or is the confirmation of 12 bytes |
| UsbReassembly.PacketIsDelivered | packages/aic8800/usr/src/aic8800-1.0.8/aic8800_fdrv/aicwf_usb.c:579-736 | for every length below 2^16: a response of type 0x11 padded to words is delivered, in however many transfers, and so is the confirmation 08 00 12 of 12 bytes |
| UsbReassembly.FragmentsAre | packages/aic8800/usr/src/aic8800-1.0.8/aic8800_fdrv/aicwf_usb.c:668-683 | the cut of a packet: 2048 bytes in every transfer but the last, which together are the packet |
| UsbReassembly.RestIsDelivered | packages/aic8800/usr/src/aic8800-1.0.8/aic8800_fdrv/aicwf_usb.c:618-655 | the same from the middle of a packet |
| UsbReassembly.ResumesAfterLoss | packages/aic8800/usr/src/aic8800-1.0.8/aic8800_fdrv/aicwf_usb.c:616-665 | after a lost fragment, for any stream of well-formed packets of any length: if its first transfer does not carry on the broken packet, every packet is delivered; if it is a whole packet of the very length still missing, it alone is taken for the end of the broken one |
| UsbReassembly.SwallowsFirst | packages/aic8800/usr/src/aic8800-1.0.8/aic8800_fdrv/aicwf_usb.c:616-652 | the remaining case: a full transfer is swallowed, whatever packet it belongs to, and the rest of the stream meets an idle receiver if that completed the broken packet, else one still waiting |
| UsbReassembly.RunBytes | packages/aic8800/usr/src/aic8800-1.0.8/aic8800_fdrv/aicwf_usb.c:616-717 | for any transfers at all, no more bytes are delivered and held than were held and arrive |
| UsbReassembly.CompletedOrLost | packages/aic8800/usr/src/aic8800-1.0.8/aic8800_fdrv/aicwf_usb.c:616-717 | whatever arrives, a packet under way is completed by the very next bytes, or no more bytes are delivered than arrive: its own are lost |
| UsbReassembly.DeliveredIff | packages/aic8800/usr/src/aic8800-1.0.8/aic8800_fdrv/aicwf_usb.c:616-665 | however much is missing of the broken packet, the stream of packets is delivered if and only if its first transfer does not carry the broken one on, unless its first packet is the very mixture that comes of it |
| UsbReassembly.CoincidenceIsDelivered | packages/aic8800/usr/src/aic8800-1.0.8/aic8800_fdrv/aicwf_usb.c:616-716 | the exception is real: after half a packet, a packet that is this half twice is delivered in its own place, and what follows it too |
| UsbReassembly.DeliversAMixture | packages/aic8800/usr/src/aic8800-1.0.8/aic8800_fdrv/aicwf_usb.c:622-645 | a packet nobody sent is delivered: a broken packet ended by the first transfer of any longer one that begins differently |
| UsbReassembly.RecoversAtShort | packages/aic8800/usr/src/aic8800-1.0.8/aic8800_fdrv/aicwf_usb.c:579-736 | whatever transfers came before, also late fragments of lost packets: after a packet shorter than a transfer every packet of any length is delivered, and that packet itself unless it has the very length a broken one still misses |
| UsbReassembly.StepKeeps | packages/aic8800/usr/src/aic8800-1.0.8/aic8800_fdrv/aicwf_usb.c:618-716 | a packet under way holds only full transfers, its header among them, and less than its declared length |
| UsbReassembly.OnlyWellFormed | packages/aic8800/usr/src/aic8800-1.0.8/aic8800_fdrv/aicwf_usb.c:616-717 | for any transfers at all, every delivered packet has exactly the length it declares |
| UsbReassembly.CutFromArriving | packages/aic8800/usr/src/aic8800-1.0.8/aic8800_fdrv/aicwf_usb.c:616-717 | for any transfers at all, delivered packets join consecutive arrived transfers, in order, none used twice |
| UsbReassembly.MsgReceiver.constructor | packages/aic8800/usr/src/aic8800-1.0.8/aic8800_fdrv/aicwf_usb.c:655-662 | no packet under way |
| UsbReassembly.MsgReceiver.Check | packages/aic8800/usr/src/aic8800-1.0.8/aic8800_fdrv/aicwf_usb.c:622-632 | the decision by fragment count is the decision by length |
| UsbReassembly.MsgReceiver.Append | packages/aic8800/usr/src/aic8800-1.0.8/aic8800_fdrv/aicwf_usb.c:635-638 | the fragment follows the bytes so far, within the allocated buffer |
| UsbReassembly.MsgReceiver.Start | packages/aic8800/usr/src/aic8800-1.0.8/aic8800_fdrv/aicwf_usb.c:680-693 | a buffer of the declared length with the first transfer in it, or nothing if there is no memory |
| UsbReassembly.MsgReceiver.HandleFresh | packages/aic8800/usr/src/aic8800-1.0.8/aic8800_fdrv/aicwf_usb.c:668-716 | a transfer that starts a packet is delivered, opened or dropped as specified |
| UsbReassembly.MsgReceiver.Continue | packages/aic8800/usr/src/aic8800-1.0.8/aic8800_fdrv/aicwf_usb.c:634-654 | a fitting fragment is appended, and completes the packet if it is the last |
| UsbReassembly.MsgReceiver.Complete | packages/aic8800/usr/src/aic8800-1.0.8/aic8800_fdrv/aicwf_usb.c:579-736 | one completed transfer takes the specified step; buffer length, byte count and fragment count agree |
| UsbTxPool.StepKeeps | packages/aic8800/usr/src/aic8800-1.0.8/aic8800_fdrv/aicwf_usb.c:1721-1893 | every piece of a handler keeps: each of the 50 buffers is in exactly one place and holds a packet unless free; packets leave the post list in posting order; queues open means a quarter free or a check still owed |
| UsbTxPool.RunKeeps | packages/aic8800/usr/src/aic8800-1.0.8/aic8800_fdrv/aicwf_usb.c:1721-1893 | the same in every run, whatever handlers come between the pieces of another |
| UsbTxPool.RunBalances | packages/aic8800/usr/src/aic8800-1.0.8/aic8800_fdrv/aicwf_usb.c:1168-1222 | over every run each packet given a buffer is on one or released, as often as it was given one |
| UsbTxPool.StartIsClean | packages/aic8800/usr/src/aic8800-1.0.8/aic8800_fdrv/aicwf_usb.c:1573-1610 | after allocation all buffers are free |
| UsbTxPool.StopToWake | packages/aic8800/usr/src/aic8800-1.0.8/aic8800_fdrv/aicwf_usb.c:249-256 | from any stop of the network queues to any later wake at least 26 packets are released and their buffers returned |
| UsbTxPool.OpenMeansFree | packages/aic8800/usr/src/aic8800-1.0.8/aic8800_fdrv/aicwf_usb.c:1882-1890 | with no sender half-way, open queues mean at least twelve free buffers |
| UsbTxPool.SendsEffect | packages/aic8800/usr/src/aic8800-1.0.8/aic8800_fdrv/aicwf_usb.c:1721-1893 | an undisturbed send posts its packet last, and stops open queues if and only if it leaves eleven free |
| UsbTxPool.SubmitsEffect | packages/aic8800/usr/src/aic8800-1.0.8/aic8800_fdrv/aicwf_usb.c:1168-1222 | the loop stops at the first try that finds the device down, or takes one more buffer and stops at -ENODEV; no other refusal stops it; what it took is in flight if accepted, else free again in order |
| UsbTxPool.BufferList.Dequeue | packages/aic8800/usr/src/aic8800-1.0.8/aic8800_fdrv/aicwf_usb.c:75-92 | the first of the list or null, with the counter exact |
| UsbTxPool.BufferList.Queue | packages/aic8800/usr/src/aic8800-1.0.8/aic8800_fdrv/aicwf_usb.c:94-104 | appends, with the counter exact |
| UsbTxPool.BufferList.FreeUrbs | packages/aic8800/usr/src/aic8800-1.0.8/aic8800_fdrv/aicwf_usb.c:1508-1543 | the list is emptied and the counter not touched |
| UsbTxPool.AllocTxUrbs | packages/aic8800/usr/src/aic8800-1.0.8/aic8800_fdrv/aicwf_usb.c:1573-1610 | every buffer once on the free list, or -ENOMEM with the list given up and its counter left as it was |
| UsbTxPool.UsbTx.constructor | packages/aic8800/usr/src/aic8800-1.0.8/aic8800_fdrv/aicwf_usb.c:2023-2070 | all buffers free, queues open |
| UsbTxPool.UsbTx.TakeBuffer | packages/aic8800/usr/src/aic8800-1.0.8/aic8800_fdrv/aicwf_usb.c:1743-1758 | the oldest free buffer takes the packet; -EIO if the device is down, -ENOMEM if none is free |
| UsbTxPool.UsbTx.PostBuffer | packages/aic8800/usr/src/aic8800-1.0.8/aic8800_fdrv/aicwf_usb.c:1871-1872 | the buffer goes to the end of the post list |
| UsbTxPool.UsbTx.FlowControl | packages/aic8800/usr/src/aic8800-1.0.8/aic8800_fdrv/aicwf_usb.c:1882-1890 | queues stop below the low water mark |
| UsbTxPool.UsbTx.BusTxData | packages/aic8800/usr/src/aic8800-1.0.8/aic8800_fdrv/aicwf_usb.c:1721-1893 | the pieces together, with the return value |
| UsbTxPool.UsbTx.TxComplete | packages/aic8800/usr/src/aic8800-1.0.8/aic8800_fdrv/aicwf_usb.c:212-257 | the buffer returns, and stopped queues wake if and only if more than 36 are free then |
| UsbTxPool.UsbTx.SubmitFirst | packages/aic8800/usr/src/aic8800-1.0.8/aic8800_fdrv/aicwf_usb.c:1189-1216 | the first posted buffer goes to the USB core, or back to the free list if that refuses it |
| UsbTxPool.UsbTx.TxProcess | packages/aic8800/usr/src/aic8800-1.0.8/aic8800_fdrv/aicwf_usb.c:1168-1222 | the loop submits in order until the list is empty, the device is down, or it is gone |
| UsbTxPool.UsbTx.TxPrepare | packages/aic8800/usr/src/aic8800-1.0.8/aic8800_fdrv/aicwf_usb.c:965-981 | every posted buffer is released to the free list |

## Left out

- Md5.Md5Context.Update: input may not alias the context's own arrays, as the source's memcpy also demands.
- TxRing.TxQueue.Push: the descriptor's ready word, the doorbell and the interrupt bits are not modelled; one ring stands for each queue and user.
- TxRing.TxQueue.HandleConfirmations: says what an overfull ring holds, not what later calls make of it.
- TcpAckFilter.StepKeepsInv: time is a number that does not wrap; window size, the unused tcp_ack_handle and the packet parsers (tcp_check_ack, tcp_check_quick_ack, is_drop_tcp_ack, scan of malformed options) are not modelled, a frame comes classified.
- TcpAckManager.AckManager.Timeout: intf_tx is not modelled; the buffer handed to it counts as sent.
- NatTable.Table.Insert: entries live in an explicit memory from addresses to entries, with kfree as removal, rather than in heap objects; that a freed address is not used is checked by that memory.
- NatTable.Table.ClientFrame: IPv4 frames; the copying of the buffer and the new source address of the frame are not modelled.
- NatRecords.TouchIsUpdate: the use count does not wrap at 32 bits, and ticks are 32 bits wide as on the RK3506.
- VlanFrame.Bridge.HandleFrame: IPv4, EAP, C-Media and unknown protocols; frames whose lookup branch is ARP, IPX, AppleTalk, PPPoE or IPv6 are not covered here, and of insertion only its effect on the table is.
- VlanFrame.Bridge.HandleTagged: the same protocols behind the tag.
- VlanFrame.Bridge.HandleUntagged: the same protocols.
- VlanFrame.Bridge.DbLookup: the same protocols.
- PppoeRelay.RemoveRelayTag: well-formed tag lists only, as in section 5 of RFC 2516; the branch without relay tags, the session branch and malformed lists, on which the walk can leave the frame, are not modelled.
- PppoeRelay.FindTag: well-formed tag lists only.
- PppoeRelay.FindRelay: well-formed tag lists only.
- The insertion of relay tags: it reads a length without swapping bytes, so that its meaning depends on the host.
- UsbReassembly.MsgReceiver.Complete: the message endpoint of 2048 bytes; the data endpoint adds a packet type and a configurable size. Resubmission of URBs and a full message queue are not modelled.
- UsbReassembly.DeliveredIff: leaves out the streams whose first packet is the very one that its own bytes make of the broken packet; it can then be delivered in its own place by coincidence.
- FrameQueue.PrioQueue.constructor: the classes in use; the rest of the array of eight is not allocated. Packet counters kept by the callers are left out.
- UsbTxPool.UsbTx.constructor: the case in which every URB can be had; the device is given up otherwise.
- UsbTxPool.UsbTx.BusTxData: the bytes written in front of the packet, per-station flow control and confirmation by callback are not modelled; a packet is what the buffer carries.
- UsbTxPool.StopToWake: safety only; buffers returned on a failed submission do not wake the queues, so a wake need not come.
- Locks, threads, timers as such, probe, suspend, register access, netlink, vendor commands, firmware tables, the 64-entry steering table, the remoteproc driver and the overlay tool: kernel plumbing or simple tables without a property of this kind.
