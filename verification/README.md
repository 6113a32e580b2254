# Verification of the datagram engine and the 9P layer

A Dafny 4.11 model of three parts of the repository, with proofs.

**Reliable delivery** (`udt-sys/udt`).  Four layers:

1. The data structures, as classes over arrays and linked blocks, each proved to be a simple mathematical object: the two
   loss lists (`SndLossList`, `RcvLossList`) are sets of numbers, the send buffer (`SndBuffer`) a queue of packets, the
   receive buffer (`RcvBuffer`) a ring of slots (`RcvRing`) over a shared pool of units (`UnitQueue`), the history of
   acknowledgements (`AckWindow`) a bounded queue.  The loss lists are argued about as chains of intervals on plain
   sequences in `LossChain`.
2. The two ends of a connection (`Sender`, `Receiver`), on wrapped 31-bit sequence numbers, proved to make the steps of
   `Protocol`, in which packet i of the stream simply has the coordinate initial number + i.  `Effects` says what these
   steps do to either end.
3. A network (`Network`) on which whatever was sent stays available for delivery, any number of times and in any order.
   The theorems hold over every run: end-to-end delivery, acknowledgement safety, flow-control credit with its two exact
   exceptions, cursors and retransmission.  `Progress` shows that the protocol cannot get stuck: whatever state a run has
   reached, if an acknowledgement was confirmed within the last 2^30-1 packets, and even if everything in flight is lost at
   that moment, there is a continuation that hands over every accepted message; and it shows when a packet is turned away.
   `Completion` says exactly when there is one, receivers further ahead included.  `Retransmission` shows what goes out
   first, what a NAK, a timeout and an acknowledgement do to the other end, and that gaps are closed without a timeout.
   `Delivery` shows what a reader may rely on with unordered messages and drop marks mixed in, and `Findings` exactly when a
   read hands a message over.
4. Both classes and the network put together (`Connection`): every call on a connection makes one step of `Network`, the
   windows never outgrow the loss lists, and a read returns the next message that was accepted at the other end.
   `Simulation` runs them: any sequence of calls, over a network of wrapped numbers and bytes on which everything sent may
   arrive any number of times and in any order until it is too old.

**Scheduling and synchronisation.**  `SndUList` is the heap of sockets with their back-pointers; `AutoResetEvent` is the
compare-exchange and semaphore protocol, over all interleavings of any number of threads.

**The 9P2000 layer.**  `NpWire`, `NpTMessages` and `NpRMessages` specify the format and prove that reading undoes writing,
and that little else is accepted; `NpLayout` says where everything stands in the bytes; `NpBuffers`, `NpSerialize` and `NpDeserialize` are the serializers and parsers, message
by message.  `ServerSession` is the server's loop of requests, flushes and session resets.

A call of the source (`processData`, `sendCtrl(2)`, `readMsg`, ...) is one step.  Integers are unbounded; sequence numbers
wrap at 2^31 explicitly (`Wrap`).  Header words are unsigned numbers below 2^32, and their bits are got by division; a
message number leaves the flag bits alone, so setting a flag is adding it.  Methods that work on wrapped numbers take the coordinates they stand for as ghost
parameters, and require them to be less than 2^30-1 apart, which is what the source's comparisons can tell, and the
numbers in use to fit the loss lists.  `Connection` shows that all this holds in every run, of every message that is not
too old, if the first window is at least half as large as the peer's ring; the handshake makes it as large as the ring.

`dafny verify dfyconfig.toml` checks everything.

## What was found on the way

- A first flow window equal to the ring size, which the handshake grants by default, is one packet more than the ring
  takes (`Networks.WholeRingIsTooMuch`).  The smallest window of 2 promises too much when the ring is full: from every
  reachable state in which acknowledgements are still sent, there is a way to go on by which a wanted packet is turned
  away, if the stream is longer than the ring and nobody reads (`Progress.FullRingTurnsAway`).  Both only cost a retransmission, and the second is what keeps the
  protocol from getting stuck.
- A message of as many packets as the ring has slots is never delivered and blocks everything behind it
  (`Progress.TooLongIsNeverRead`); `scanMsg` says that it returns part of such a message, but `readMsg` then copies nothing,
  while `getRcvMsgNum` counts it (`RcvRing.FullOfOneMessage`).
- `scanMsg` takes a ring for empty in which only the first slot is filled and nothing is acknowledged, so a message of one
  packet that need not be kept in order, and that comes first, waits until it is acknowledged
  (`Findings.FirstAloneWaits`).  That is the only message that can be read and is not found (`Findings.ReadsExactly`).
- `dropMsg` compares its argument with the whole header word, flag bits included; given a message's number, it marks only
  the middle packets of messages sent without the order flag, never a first or a last one (`RcvRing.DropMarksMiddles`).
- `getNextAvailUnit` can find nothing although units are free, and whenever it finds nothing, one is free.  It looks at the
  current entry only from the current position on, at its first unit, and not at the last unit of an entry of more than
  one.  `UnitQueues.UnitQueue.WillFail` is the exact condition, `UnitQueues.MissesAFreeUnit` a run that meets it.  With
  entries of at least ten units the next call finds one; with fewer, a pool whose units but the last of each entry are in
  use neither hands out another nor grows (`UnitQueues.UnitQueue.SmallEntriesStick`).  The source makes entries of 32.
- `remove_` can break the heap order when it takes out a node that is not the first (`SndULists.RemovalCanBreakOrder`).  It
  interrupts the timer when one node is left, while its comment speaks of the only event having been deleted.
- A receiver that is 2^30-1 or more packets ahead of the last confirmed ACK, without a wrap-around in between, takes its own
  number for an older one and sends no full ACK any more.  If everything in flight is lost then, a stream that goes on
  beyond the sender's window never comes to its end (`Completions.LagIsFatal`).
- In `acknowledge`, the branch for `j == m_iHead` in the wrapped layout cannot be taken; the window is emptied all the same.
- A `wait_for` that gives up too late leaves a permit behind (`AutoResetEvents.LateTimeOutRemembersTwo`), as its comment says.
- Message numbers start again at 1 just before the largest one, which is never used.
- Treads is sent with the type of Tread; Tauth and Tattach are accepted with anything behind them; the two sizes of a stat
  are only checked not to exceed what is there, so that two zeros are accepted in front of any stat
  (`NpTMessages.SizesAreNotCompared`, `NpRMessages.SizesAreNotCompared`).
- A second Tflush for the same request makes the first one wait for ever, and nothing else ever loses a request
  (`ServerSessions.SecondFlushLosesFirst`, `ServerSessions.LostExactly`).

## Model

| member | source | states |
|---|---|---|
| `SeqNo.OffOfWrap` | udt-sys/udt/udtCommon.h:187-196 | seqoff of the numbers of two positions less than 2^30-1 apart is their distance, sign included, across every wrap-around |
| `SeqNo.CmpOfWrap` | udt-sys/udt/udtCommon.h:181-182 | seqcmp of such numbers has the sign of the positions' difference, and the numbers are equal only if the positions are |
| `SeqNo.LenOfWrap` | udt-sys/udt/udtCommon.h:184-185 | seqlen counts a range of positions, both ends included |
| `SeqNo.StepOfWrap` | udt-sys/udt/udtCommon.h:198-205 | incseq, decseq and the two-argument incseq are addition of positions, at every wrap-around |
| `SeqNo.CmpIsTotalOrder` | udt-sys/udt/udtCommon.h:181-182 | on the numbers of one window shorter than 2^30-1, seqcmp is irreflexive, transitive, total and antisymmetric |
| `SeqNo.OffExact` | udt-sys/udt/udtCommon.h:187-196 | the exact reach of seqoff: a distance of 2^30-1 or more is recovered if and only if the two numbers lie on different sides of the wrap-around |
| `SndLossLists.SndLossList.constructor` | udt-sys/udt/list.cpp:43-63 | an empty list, whose invariant holds: slot of a node = slot of its start number, free slots hold -1, nodes ordered and apart, length the cardinality |
| `SndLossLists.SndLossList.Insert` | udt-sys/udt/list.cpp:68-238 | insert makes the set the union with the range, and returns exactly how many numbers are new; for every order of ranges, overlapping, touching or apart, before or behind the head |
| `SndLossLists.SndLossList.InsertFirst` | udt-sys/udt/list.cpp:72-88 | the first range of an empty list |
| `SndLossLists.SndLossList.NewNode` | udt-sys/udt/list.cpp:94-108 | a range that overlaps nothing before it becomes a node of its own, linked in order, and is counted |
| `SndLossLists.SndLossList.Extend` | udt-sys/udt/list.cpp:111-133 | a range that starts where a node starts, or inside one, stretches that node if it reaches further, and counts what it adds |
| `SndLossLists.SndLossList.SeekPrior` | udt-sys/udt/list.cpp:137-144 | the node to insert behind: the last one that starts before the number |
| `SndLossLists.SndLossList.Coalesce` | udt-sys/udt/list.cpp:201-235 | the grown node swallows all followers it overlaps or touches: the set does not change, the nodes are apart again, and the length is right |
| `SndLossLists.SndLossList.JoinEnds` | udt-sys/udt/list.cpp:206-227 | joining a node with its follower keeps the union of the two and subtracts exactly the overlap from the length |
| `SndLossLists.SndLossList.Remove` | udt-sys/udt/list.cpp:240-350 | remove leaves exactly the numbers behind the given one |
| `SndLossLists.SndLossList.GetLostSeq` | udt-sys/udt/list.cpp:359-402 | getLostSeq takes out and returns the circular minimum, or returns -1 on the empty set |
| `SndLossLists.SndLossList.CountIsSize` | udt-sys/udt/list.cpp:352-357 | getLossLength is the cardinality of the set |
| `RcvLossLists.RcvLossList.constructor` | udt-sys/udt/list.cpp:405-426 | an empty list with consistent next, prior and tail links |
| `RcvLossLists.RcvLossList.Insert` | udt-sys/udt/list.cpp:431-477 | appending a range behind everything in the list adds exactly that range |
| `RcvLossLists.RcvLossList.Remove` | udt-sys/udt/list.cpp:479-607 | remove takes out exactly the number, by deleting, shrinking at either end or splitting a node, and says whether it was there; prior and tail links stay right |
| `RcvLossLists.RcvLossList.Find` | udt-sys/udt/list.cpp:627-645 | find is true if and only if the set meets the range |
| `RcvLossLists.RcvLossList.GetFirstLostSeq` | udt-sys/udt/list.cpp:652-658 | the circular minimum, or -1 |
| `RcvLossLists.RcvLossList.CountIsSize` | udt-sys/udt/list.cpp:647-650 | getLossLength is the cardinality of the set |
| `RcvLossLists.RcvLossList.GetLossArray` | udt-sys/udt/list.cpp:660-681 | writes the encoding of all nodes, or of the leading ones if the limit cuts it; never writes past the limit, and changes nothing behind what it writes |
| `LossChain.TotalIsCardinality` | udt-sys/udt/list.cpp:352-357 | the summed lengths of ordered intervals are the cardinality of their union |
| `LossChain.SlotInjective` | udt-sys/udt/list.cpp:91-92 | numbers less than the list size apart have different slots |
| `NakCoding.WordsAsBits` | udt-sys/udt/list.cpp:660-681 | the 32 bits of the words: the first number, its top bit set exactly if a second word follows, and the last number |
| `NakCoding.DecodeEncode` | udt-sys/udt/core.cpp:1441-1477 | decoding the words of a NAK gives back the encoded ranges, one for one and in order |
| `NakCoding.EncodeAppend` | udt-sys/udt/list.cpp:660-681 | encoding is built up node by node |
| `Packets.WordRoundTrip` | udt-sys/udt/packet.cpp:328-344 | boundary, order flag and message number read from a header word are those packed into it |
| `Packets.WordFields` | udt-sys/udt/packet.cpp:328-344 | where they are: two bits, one bit and 29 bits, from the top, and nothing else in the word |
| `Packets.FragmentsPayload` | udt-sys/udt/buffer.cpp:108-153 | concatenating the packets of a message gives back its bytes |
| `Packets.FragmentsShape` | udt-sys/udt/buffer.cpp:119-147 | exactly the first packet opens the message, exactly the last closes it, all carry the order flag and the message's number, all but the last are full, none is empty |
| `Packets.FragmentsOneMessage` | udt-sys/udt/buffer.cpp:108-153 | a message of at least one byte becomes exactly one delimited message |
| `SndBuffers.CountsFragments` | udt-sys/udt/buffer.cpp:110-112 | the number of packets computed from the length is the number of packets of the message |
| `SndBuffers.FragmentAt` | udt-sys/udt/buffer.cpp:122-147 | packet i, filled from byte i*mss on with flags by position, is packet i of the message |
| `SndBuffers.RotateCycle` | udt-sys/udt/buffer.cpp:206-214 | a cycle of blocks is a cycle from any of its blocks |
| `SndBuffers.SndBuffer.constructor` | udt-sys/udt/buffer.cpp:47-86 | one cycle of exactly `size` empty blocks, empty queue, message number 1 |
| `SndBuffers.SndBuffer.Increase` | udt-sys/udt/buffer.cpp:221-278 | splices new blocks into the cycle behind the last one: one cycle again, of the new size, queued packets undisturbed |
| `SndBuffers.SndBuffer.AddBuffer` | udt-sys/udt/buffer.cpp:108-153 | queues exactly the packets of the message behind the others, under the next message number; the number after it is one more, or 1 again; the growth loop terminates with one block to spare |
| `SndBuffers.SndBuffer.WriteMessage` | udt-sys/udt/buffer.cpp:119-153 | fills the blocks from the last one on with the message's packets, and takes the next message number: one more, but 1 after 2^29-2 |
| `SndBuffers.SndBuffer.ReadNext` | udt-sys/udt/buffer.cpp:155-168 | the next packet that has not been sent, in order; none if all have been |
| `SndBuffers.SndBuffer.ReadAt` | udt-sys/udt/buffer.cpp:170-204 | the packet at an offset from the first block: the same that was sent the first time |
| `SndBuffers.SndBuffer.AckData` | udt-sys/udt/buffer.cpp:206-214 | releases exactly the first packets; the rest of the queue and the current block stand where they stood |
| `SndBuffers.SndBuffer.GetCurrBufSize` | udt-sys/udt/buffer.cpp:216-219 | the length of the queue |
| `UnitQueues.UnitQueue.Recount` | udt-sys/udt/queue.cpp:127-142 | counting the units with a flag gives the count field: it equals the number of units in use |
| `UnitQueues.UnitQueue.Increase` | udt-sys/udt/queue.cpp:125-184 | adds an entry of free units if and only if at least nine tenths are in use; no unit changes its state, no entry moves |
| `UnitQueues.UnitQueue.GetNextAvailUnit` | udt-sys/udt/queue.cpp:192-221 | null exactly if no entry is added and every entry is blind to the search, and only while a unit is free; otherwise the first free unit the search comes to, never the last of an entry of more than one; after a null, with entries of at least ten, some entry is not blind for the next call |
| `UnitQueues.UnitQueue.FindInEntry` | udt-sys/udt/queue.cpp:204-212 | the search within one entry: the first free unit from the current position on, or else the entry's first unit; null exactly if those are all in use |
| `UnitQueues.UnitQueue.Search` | udt-sys/udt/queue.cpp:200-216 | the search goes through the entries once: null exactly if all are blind, otherwise from the first one that is not |
| `UnitQueues.UnitQueue.SomethingFree` | udt-sys/udt/queue.cpp:192-198 | with at most nine tenths in use, a unit is free |
| `UnitQueues.UnitQueue.AlmostAllInUse` | udt-sys/udt/queue.cpp:192-219 | if all units but the last of each entry are in use, those are nine tenths, with entries of at least ten |
| `UnitQueues.UnitQueue.SmallEntriesStick` | udt-sys/udt/queue.cpp:192-219 | in that state nothing more is found, with entries of up to ten, and with fewer than ten the pool does not grow either |
| `UnitQueues.MissesAFreeUnit` | udt-sys/udt/queue.cpp:192-219 | from a new pool: three units handed out, one of them given back and free, and the next call finds nothing; the call after it finds that unit |
| `RcvRing.FoundRun` | udt-sys/udt/buffer.cpp:451-497 | what the search finds is a gap-free run of unread packets that opens with a first packet, closes with a last one and has no other opening inside; beyond the acknowledged part only unordered messages |
| `RcvBuffers.RcvBuffer.constructor` | udt-sys/udt/buffer.cpp:282-294 | an empty ring that uses no unit |
| `RcvBuffers.RcvBuffer.AddData` | udt-sys/udt/buffer.cpp:308-323 | stores the unit in its slot, or refuses it because the slot is taken; the furthest position and the account of units follow |
| `RcvBuffers.RcvBuffer.AckData` | udt-sys/udt/buffer.cpp:325-331 | moves the acknowledged position round the ring, with the furthest position relative to it |
| `RcvBuffers.RcvBuffer.GetAvailBufSize` | udt-sys/udt/buffer.cpp:333-337 | the free slots behind the acknowledged part, one kept back |
| `RcvBuffers.RcvBuffer.GetRcvDataSize` | udt-sys/udt/buffer.cpp:339-345 | the acknowledged, unread slots, in both layouts of the ring |
| `RcvBuffers.RcvBuffer.DropMsg` | udt-sys/udt/buffer.cpp:347-352 | marks exactly the filled slots whose header word equals the number, up to the furthest position |
| `RcvBuffers.RcvBuffer.SkipBad` | udt-sys/udt/buffer.cpp:408-449 | gives up leading slots, and returns their units, until a slot from which nothing of a message is missing |
| `RcvBuffers.RcvBuffer.LooksGood` | udt-sys/udt/buffer.cpp:420-436 | the look-ahead: unread packets up to the end of the message or of the acknowledged part |
| `RcvBuffers.RcvBuffer.Search` | udt-sys/udt/buffer.cpp:451-507 | the loop finds what the specification of the search finds, with array positions for ring positions; if it ends without a message, it reports one exactly if an unfinished message fills all slots but one |
| `RcvBuffers.RcvBuffer.ScanMsg` | udt-sys/udt/buffer.cpp:402-508 | skip and search together; the ring changes only by the skip; when the result is true, in both cases |
| `RcvBuffers.RcvBuffer.CopyOut` | udt-sys/udt/buffer.cpp:361-387 | copies the run's bytes as far as they fit, frees or marks exactly its slots, and returns exactly the freed units |
| `RcvBuffers.RcvBuffer.ReadMsg` | udt-sys/udt/buffer.cpp:354-393 | one read, ring and bytes; units in use by others are untouched |
| `RcvBuffers.RcvBuffer.GetRcvMsgNum` | udt-sys/udt/buffer.cpp:395-400 | 1 exactly if a message is found or an unfinished one fills the ring, 0 otherwise |
| `RcvBuffers.RcvBuffer.Destroy` | udt-sys/udt/buffer.cpp:296-306 | all units of the slots, and no others, go back to the pool |
| `RcvBuffers.RcvBuffer.NextUnit` | udt-sys/udt/queue.cpp:867-884 | the unit for the next datagram: one that no slot and no reader uses, and none exactly if the pool finds none; slots and units in use are untouched |
| `RcvRing.DropMarksMiddles` | udt-sys/udt/buffer.cpp:347-352 | dropping by a number without flag bits marks exactly the packets of that message that are neither first nor last nor to be kept in order |
| `RcvRing.FullOfOneMessage` | udt-sys/udt/buffer.cpp:499-505 | an unfinished message that fills the ring is reported, and nothing of it is read |
| `Delivery.FoundIsWhole` | udt-sys/udt/buffer.cpp:402-508 | for a ring that holds packets of a well-formed stream, whatever is found is exactly one message of the stream, and in the acknowledged part it is the first one |
| `Delivery.ReadKeeps` | udt-sys/udt/buffer.cpp:354-393 | a read adds at most one whole message to what was given out, with its bytes, and keeps all packets given out before marked as spent |
| `Delivery.AtMostOnce` | udt-sys/udt/buffer.cpp:354-508 | over every run of storing, acknowledging, drop marks and reads, ordered and unordered messages mixed: every range handed out is exactly one message, its bytes are handed out as far as they fit the reader's buffer, and no packet is handed out twice |
| `Delivery.FindsInOrder` | udt-sys/udt/buffer.cpp:402-508 | with everything acknowledged present, a message is found if and only if one ends in the acknowledged part, and then it is the first |
| `Delivery.ReadsNext` | udt-sys/udt/buffer.cpp:354-393 | in-order reading: the next message of the stream as soon as all of it is acknowledged, and nothing changes before that |
| `Findings.FindsExactly` | udt-sys/udt/buffer.cpp:451-497 | the search finds a message if and only if one is there, unread, that has been acknowledged or need not be kept in order, and then the one that ends first |
| `Findings.SkipSpares` | udt-sys/udt/buffer.cpp:408-449 | giving up leading slots never passes the start of such a message |
| `Findings.ScanExactly` | udt-sys/udt/buffer.cpp:402-508 | skip and search together find one exactly if there is one, unless the ring looks empty to the first test |
| `Findings.ReportedExactly` | udt-sys/udt/buffer.cpp:499-507 | a scan is reported to have found something exactly if it has, or if the beginning of one message fills all slots but one |
| `Findings.ReadsExactly` | udt-sys/udt/buffer.cpp:354-508 | over every run, ordered and unordered messages mixed: a read hands a message over if and only if a whole one of the stream is there, unread, that has been acknowledged or need not be kept in order, and the ring does not look empty; and then the one that ends first |
| `Findings.FirstAloneWaits` | udt-sys/udt/buffer.cpp:404-406 | the exception happens: a message of one packet that need not be kept in order, and that comes first, waits until it is acknowledged |
| `Streams.StreamShape` | udt-sys/udt/buffer.cpp:108-153 | the stream of all messages consists of whole messages, all in order, and never stops inside one |
| `Streams.MessageAt` | udt-sys/udt/packet.cpp:328-338 | the message that starts where d messages end is message d, byte for byte |
| `Streams.NumberOf` | udt-sys/udt/buffer.cpp:150-152 | message i of a stream has number i mod (2^29-2) + 1 |
| `Streams.PacketNumber` | udt-sys/udt/buffer.cpp:122-147 | every packet of message i in the stream carries that number |
| `Streams.NumbersDiffer` | udt-sys/udt/buffer.cpp:150-152 | packets of two messages fewer than 2^29-2 apart carry different numbers |
| `Senders.Sender.constructor` | udt-sys/udt/core.cpp:545-551 | the sender's counters after the handshake, the initial number 0 included |
| `Senders.Sender.SendMsg` | udt-sys/udt/core.cpp:915-957 | a message is queued if and only if the connection stands, it is not empty, and its packets fit beside those queued; otherwise nothing changes; too long exactly if it would not fit the empty buffer either |
| `Senders.Sender.PackData` | udt-sys/udt/core.cpp:1583-1663 | on wrapped numbers: while anything is lost, whatever the windows, the least lost number goes out with the packet of that number, and leaves the loss list; otherwise the next new packet, if and only if there is one and both windows have room |
| `Senders.Sender.PackLost` | udt-sys/udt/core.cpp:1595-1630 | the offset computed on wrapped numbers finds the packet of that number |
| `Senders.Sender.PackNext` | udt-sys/udt/core.cpp:1638-1643 | the next packet takes the next number |
| `Senders.Sender.Allows` | udt-sys/udt/core.cpp:1635-1636 | the window test counts the packets in flight, one more included |
| `Senders.Sender.ProcessLightAck` | udt-sys/udt/core.cpp:1300-1310 | a light ACK moves lastAck and leaves the window's right edge where it is; a stale one does nothing |
| `Senders.Sender.ProcessAck` | udt-sys/udt/core.cpp:1326-1366 | a full ACK: beyond what was sent it breaks the connection; otherwise window and lastAck, then buffer and loss list released up to it, if it is new; the buffer's cycle keeps its blocks |
| `Senders.Sender.Release` | udt-sys/udt/core.cpp:1357-1366 | buffer, counter and loss list drop the same packets |
| `Senders.Sender.NakRange` | udt-sys/udt/core.cpp:1443-1462 | one range of a NAK: refused exactly if it is reversed or was not sent; otherwise exactly its numbers from lastAck on join the loss list |
| `Senders.Sender.NakOne` | udt-sys/udt/core.cpp:1463-1477 | the same of a single number |
| `Senders.Sender.ProcessNak` | udt-sys/udt/core.cpp:1441-1488 | the decode loop over the words: exactly the numbers of the encoded ranges from lastAck on join the loss list, up to the first range that was not sent, and such a range breaks the connection |
| `Senders.Sender.ResendAll` | udt-sys/udt/core.cpp:1930-1939 | on a timeout, exactly what has been sent and not acknowledged joins the loss list, if that is empty; otherwise nothing |
| `Receivers.Receiver.constructor` | udt-sys/udt/core.cpp:684-698 | the receiver's counters after the handshake; its objects are new and use no unit of the pool |
| `Receivers.Receiver.ProcessData` | udt-sys/udt/core.cpp:1725-1764 | on wrapped numbers: a packet in front of the acknowledged part or without a slot is refused, a new one is stored, a gap before it is noted and reported word for word, a filled gap leaves the loss list; the unit joins the ring exactly if it is stored, and no other does |
| `Receivers.Receiver.NoteGap` | udt-sys/udt/core.cpp:1732-1748 | the gap noted and the NAK sent are the numbers between the greatest received one and this one |
| `Receivers.Receiver.File` | udt-sys/udt/core.cpp:1732-1761 | a packet ahead advances the greatest number received; one behind leaves the loss list |
| `Receivers.Receiver.AckNumber` | udt-sys/udt/core.cpp:1093-1096 | the number acknowledged is the first one missing |
| `Receivers.Receiver.SendAck` | udt-sys/udt/core.cpp:1087-1170 | an ACK of either kind names the first packet missing; when one is sent, and of which kind; a full one promises the slots free behind that, at least 2, advances the buffer to it, takes the next ACK number and is recorded; anything else leaves number and history alone |
| `Receivers.Receiver.AdvanceTo` | udt-sys/udt/core.cpp:1116-1122 | counter and buffer acknowledge the same packets |
| `Receivers.Receiver.Report` | udt-sys/udt/core.cpp:1136-1166 | a full ACK carries the next ACK number, the data number and the free space, at least 2, and is stored in the history |
| `Receivers.Receiver.ProcessAck2` | udt-sys/udt/core.cpp:1408-1428 | the full ACK with that number, if it is still kept, leaves the history with all before it, and sets the confirmed number to the one it carried, if time has passed; otherwise nothing changes |
| `Receivers.Receiver.WhichKept` | udt-sys/udt/window.cpp:66-77 | the history is always the latest full ACKs that were sent, so an ACK2 finds the very ACK it answers, exactly if that is among them |
| `Receivers.Receiver.RecvMsg` | udt-sys/udt/core.cpp:959-988 | one read of the buffer; the counters follow the start position |
| `Effects.AcceptsIfFits` | udt-sys/udt/core.cpp:935-948 | the byte arithmetic of sendmsg says whether the message's packets fit beside those queued |
| `Effects.LightAckMeans` | udt-sys/udt/core.cpp:1300-1310 | a light ACK leaves lastAck + window as it is |
| `Effects.NakMeans` | udt-sys/udt/core.cpp:1441-1488 | a NAK of any ranges: which numbers become lost, exactly, and when it breaks the connection |
| `Effects.DataMeans` | udt-sys/udt/core.cpp:1725-1764 | a packet that is wanted goes into its slot; exactly the numbers between the greatest one before and this one become missing, and are reported; any other packet changes nothing that is read later, and nothing is reported |
| `Effects.DataReaches` | udt-sys/udt/buffer.cpp:308-316 | how far the furthest position moves, whether the packet is stored or not |
| `Retransmissions.LostGoesFirst` | udt-sys/udt/core.cpp:1594-1630 | while anything is lost, for every congestion window, the sender's turn puts the first lost packet on the wire, takes it off the loss list, and does nothing else |
| `Retransmissions.NewGoesNext` | udt-sys/udt/core.cpp:1631-1660 | with nothing lost, it puts the next new packet on the wire if and only if there is one and both windows have room |
| `Retransmissions.Drains` | udt-sys/udt/core.cpp:1594-1630 | as many turns as packets are lost, for all congestion windows: exactly the lost packets go onto the wire, and nothing is lost then |
| `Retransmissions.NakIsHeard` | udt-sys/udt/core.cpp:1441-1488 | a NAK that arrives makes exactly the packets it names lost that have not been acknowledged, and does nothing else |
| `Retransmissions.NakIsAnswered` | udt-sys/udt/core.cpp:1441-1488 | so, with all else on its way lost, exactly these and those lost before go out again in the sender's next turns |
| `Retransmissions.TimeoutIsHeard` | udt-sys/udt/core.cpp:1930-1939 | a timeout makes everything sent and not acknowledged lost, exactly if nothing is lost, and does nothing else |
| `Retransmissions.GapIsReported` | udt-sys/udt/core.cpp:1732-1748 | the arrival of a packet puts a NAK on the wire exactly if it is wanted and leaves a gap, and then for the whole gap |
| `Retransmissions.GapIsClosed` | udt-sys/udt/core.cpp:1732-1748 | so a gap is closed without a timeout: after its NAK and the sender's next turns, every packet of it is on the wire again |
| `Retransmissions.AckIsExact` | udt-sys/udt/core.cpp:1093-1147 | what an acknowledgement puts on the wire, light or full, names the first packet the receiver does not have; a full one promises what the ring holds behind that, or two packets |
| `Retransmissions.AckIsSent` | udt-sys/udt/core.cpp:1087-1170 | and when it puts one there, and what it advances |
| `Retransmissions.AckIsHeard` | udt-sys/udt/core.cpp:1326-1366 | a full ACK that arrives gives up exactly what is in front of it, sets the window unless a later one has been seen, and is confirmed |
| `Retransmissions.ConfirmIsHeard` | udt-sys/udt/core.cpp:1408-1428 | a confirmation that arrives sets the confirmed number if it is a later one, across every wrap-around |
| `Networks.DataKeeps` | udt-sys/udt/core.cpp:1725-1764 | a data packet keeps the receiver's invariant: from lastAck on every number is either stored or in the loss list, never both, and nothing received is forgotten |
| `Networks.AckKeepsReceiver` | udt-sys/udt/core.cpp:1087-1133 | acknowledging keeps it, and what is acknowledged has all been received |
| `Networks.ReadKeepsReceiver` | udt-sys/udt/buffer.cpp:354-393 | reading keeps it, and moves the start position by one whole message at most |
| `Networks.StepKeeps` | udt-sys/udt/core.cpp:1583-1764 | every step of sender, receiver and network keeps the whole invariant, and moves no counter back |
| `Networks.RunGrows` | udt-sys/udt/core.cpp:1087-1133 | over whole runs no counter goes back, nothing received is lost, nothing handed over is taken back |
| `Networks.EndToEnd` | udt-sys/udt/core.cpp:1583-1764 | over every run, with loss, duplication and reordering: what the reader has been given is a prefix of the accepted messages, in order, each once, byte for byte as far as his buffer reached |
| `Networks.AckSafety` | udt-sys/udt/core.cpp:1087-1133 | no ACK on the wire, full or light, passes a packet the receiver does not have, nor does anything the sender releases; from lastAck on, missing is the same as being in the loss list |
| `Networks.SameEveryTime` | udt-sys/udt/core.cpp:1595-1643 | all transmissions of a number carry the same bytes and message header, those of its place in the stream |
| `Networks.Cursors` | udt-sys/udt/core.cpp:1329-1366 | dataAck <= lastAck <= next <= sent always, the loss list lies between dataAck and sent, and no acknowledgement or NAK of an honest receiver ever breaks the connection |
| `Networks.Windows` | udt-sys/udt/core.cpp:694-698 | the numbers in use span less than the ring at the receiver, and at most the largest window at the sender; so at most twice the first window, which is the size of the sender's loss list, if that is at least half the ring |
| `Networks.FreshIsNear` | udt-sys/udt/udtCommon.h:181-196 | a message delivered before the other side has moved on by 2^30-1 packets is within reach of every comparison made with it |
| `Networks.CreditHolds` | udt-sys/udt/core.cpp:1143-1147 | a wanted packet is refused for lack of room only if at most one slot is free, or if it lies in what the handshake granted beyond the ring |
| `Networks.ArrivesAndStays` | udt-sys/udt/core.cpp:1725-1730 | with a first window below the ring size and two free slots, every packet that arrives is kept in its slot |
| `Networks.WholeRingIsTooMuch` | udt-sys/udt/core.cpp:758-759 | a first window as large as the ring or larger, which the handshake grants, does lead to a wanted packet being refused, for every ring size |
| `Progress.NeverStuck` | udt-sys/udt/core.cpp:1583-1764 | no deadlock: from every reachable state with an acknowledgement confirmed within the last 2^30-1 packets, with everything in flight lost, some continuation hands over every accepted message, if each one still unread takes fewer packets than the ring has slots |
| `Progress.Round` | udt-sys/udt/core.cpp:1087-1170 | while something accepted is unread, some steps either hand over a message or close the first gap |
| `Progress.Agree` | udt-sys/udt/core.cpp:1116-1170 | ACK, its arrival and its confirmation bring both ends to agree on the first missing packet, with an open window |
| `Progress.SendMissing` | udt-sys/udt/core.cpp:1930-1937 | the first missing packet can be sent, if the sender may get to it: from the loss list, after a timeout, or for the first time |
| `Progress.FillsGap` | udt-sys/udt/core.cpp:1725-1761 | when it arrives and a slot is free, the acknowledgement point moves on |
| `Progress.TooLongIsNeverRead` | udt-sys/udt/buffer.cpp:499-505 | the converse: a message of as many packets as the ring has slots is never handed over, nor anything behind it |
| `Progress.FillRing` | udt-sys/udt/core.cpp:1087-1170 | while nobody reads, some steps fill the ring, and both ends know it |
| `Progress.FullRingTurnsAway` | udt-sys/udt/core.cpp:1143-1147 | the exception of a full ring does happen: from every reachable state in which an ACK would still be sent, and whose stream goes on beyond the ring, some continuation without a read has a wanted packet refused, whatever the first window |
| `Progress.SmallestWindowIsTooMuch` | udt-sys/udt/core.cpp:1143-1147 | so a first window that leaves a slot free does not help, for every ring size and every such window |
| `Completions.CanFinish` | udt-sys/udt/core.cpp:1087-1170 | the exact condition of that: with everything in flight lost, some continuation hands over every accepted message only if each one still unread fits the ring, and either no further full ACK is needed to send the rest, or one that will be sent comes within reach; and if so, then one does, as long as the numbers have not gone all the way round since the last confirmed ACK |
| `Completions.LagIsFatal` | udt-sys/udt/core.cpp:1136-1147 | so when the receiver is 2^30-1 or more packets ahead of the last confirmed ACK, without a wrap-around up to where the sender may get, and the stream goes on behind that, there is no continuation: no full ACK is sent any more |
| `Completions.FarIsDeaf` | udt-sys/udt/udtCommon.h:181-182 | that far ahead, an acknowledgement is sent exactly if its number has wrapped and is still 2^30-1 or more below the confirmed one |
| `Connections.Connection.constructor` | udt-sys/udt/core.cpp:675-720 | both ends after the handshake are the start of a run, with new objects that use no unit of the pool |
| `Connections.Connection.Fits` | udt-sys/udt/core.cpp:694-698 | in every run the numbers in use fit the sender's loss list and the reach of the comparisons |
| `Connections.Connection.Send` | udt-sys/udt/core.cpp:915-957 | sending makes the network's step, puts nothing on the wire, and says whether the message has been accepted; blocks that join the buffer are new |
| `Connections.Connection.Pack` | udt-sys/udt/core.cpp:1583-1663 | packing makes the step; what it returns is exactly what goes onto the wire, under its wrapped number |
| `Connections.Connection.CheckTimers` | udt-sys/udt/core.cpp:1930-1939 | a timeout makes the step |
| `Connections.Connection.AckArrives` | udt-sys/udt/core.cpp:1312-1366 | a full ACK on the wire makes the step of its arrival, all comparisons being in reach; only an ACK2 goes onto the wire, and no block joins the buffer |
| `Connections.Connection.LightAckArrives` | udt-sys/udt/core.cpp:1300-1310 | so does a light one, which never passes what was sent |
| `Connections.Connection.NakArrives` | udt-sys/udt/core.cpp:1431-1488 | so does a NAK |
| `Connections.Connection.DataArrives` | udt-sys/udt/core.cpp:1702-1764 | so does a data packet; what goes onto the wire is exactly the NAK it returns, and of all units only this one joins the ring |
| `Connections.Connection.Datagram` | udt-sys/udt/queue.cpp:867-884 | a datagram is read into a unit of the pool and then arrives as a packet; exactly if the pool finds no unit it is thrown away, and nothing happens at either end |
| `Connections.Connection.Acknowledge` | udt-sys/udt/core.cpp:1087-1170 | acknowledging makes the step; what it returns is exactly what goes onto the wire, and the number of a full ACK stands for what it acknowledged |
| `Connections.Connection.Ack2Arrives` | udt-sys/udt/core.cpp:1405-1428 | an ACK2 makes the step exactly if its ACK is still kept and time has passed; otherwise it is as good as lost |
| `Connections.Connection.Read` | udt-sys/udt/core.cpp:959-988 | a read makes the step; bytes it returns are those of the next accepted message, as far as they fit; no unit joins the ring, and no other unit is touched |
| `Simulations.EveryRun` | udt-sys/udt/core.cpp:915-988 | any sequence of calls on two new ends, over a network that carries wrapped numbers and bytes and loses, repeats and reorders them: every call makes the network's step for it, and what the receiving application is given is a prefix of what the sending one got accepted, in order, as far as it fitted |
| `Simulations.World.Do` | udt-sys/udt/core.cpp:1583-1764 | one call, whichever: the objects make the step it stands for, a datagram's arrival that of the message behind its wrapped numbers, and whatever the step sends is put into the air |
| `Simulations.World.DoAll` | udt-sys/udt/core.cpp:1583-1764 | so does a whole sequence of calls, one after the other, with the moments between them |
| `Simulations.AllCarried` | udt-sys/udt/core.cpp:1583-1764 | whatever has been sent in a run is in the air, and may still arrive |
| `AckWindows.AckWindow.constructor` | udt-sys/udt/window.cpp:48-61 | an empty history |
| `AckWindows.AckWindow.Store` | udt-sys/udt/window.cpp:66-77 | appends a record, and evicts the oldest if size-1 were kept already |
| `AckWindows.AddedKeeps` | udt-sys/udt/window.cpp:66-77 | what is kept are always the latest records, size-1 of them at most |
| `AckWindows.AckWindow.Acknowledge` | udt-sys/udt/window.cpp:79-139 | finds the oldest match, returns its data ACK and age, and drops it and everything older; -1 and no change if there is none |
| `AckWindows.AckWindow.AcknowledgeStraight` | udt-sys/udt/window.cpp:81-109 | the same while the records lie in one piece |
| `AckWindows.AckWindow.AcknowledgeRound` | udt-sys/udt/window.cpp:111-138 | the same when they go round the end of the arrays; the head is never where a match is |
| `SndULists.SndUList.Insert` | udt-sys/udt/queue.cpp:241-266 | a node joins the heap, which is enlarged when full; order and places are kept; the timer is interrupted exactly as by insert_ |
| `SndULists.SndUList.Insert_` | udt-sys/udt/queue.cpp:341-385 | a node that is on no heap joins; nobody else's time changes; places and order are kept; the timer is interrupted exactly if it joins at the root, which in an ordered heap is exactly if it is earlier than all others |
| `SndULists.SndUList.SiftUp` | udt-sys/udt/queue.cpp:353-370 | moving the last node up restores the order; the set of nodes is the same |
| `SndULists.SndUList.SiftDown` | udt-sys/udt/queue.cpp:398-418 | moving a node down restores the order if only its children are misplaced; a node with no earlier child stays |
| `SndULists.SndUList.Remove_` | udt-sys/udt/queue.cpp:387-426 | exactly the node leaves; the timer is interrupted exactly if one node is left; the order survives if and only if the last node is not earlier than the parent of the freed place |
| `SndULists.TakenOutOrder` | udt-sys/udt/queue.cpp:394-398 | the order after putting the last entry into a freed place, both ways |
| `SndULists.RemovalCanBreakOrder` | udt-sys/udt/queue.cpp:387-426 | a heap in which removing a node that is not the first breaks the order |
| `SndULists.SndUList.Update` | udt-sys/udt/queue.cpp:268-290 | update, with and without rescheduling: which nodes and times change, when the order survives, and when the timer is interrupted: when the node was the first, joins at the root, or was one of two on the heap |
| `SndULists.SndUList.Pop` | udt-sys/udt/queue.cpp:292-322 | nothing happens before the first node's time; then it leaves, and comes back with its next time if it has more to send; no other time changes; order is kept; when the timer is interrupted |
| `SndULists.SndUList.GetNextProcTime` | udt-sys/udt/queue.cpp:331-339 | the least time of all nodes while the heap is in order; 0 if there is none |
| `SndULists.FirstIsLeast` | udt-sys/udt/queue.cpp:331-339 | the first entry of an ordered heap is the least |
| `AutoResetEvents.StepKeeps` | udt-sys/udt/rsynch.h:125-160 | every atomic step of every thread keeps both conservation laws |
| `AutoResetEvents.EveryRun` | udt-sys/udt/rsynch.h:125-160 | over all interleavings: status <= 1; sets = successful waits + sets remembered + sets that found the event set; waiters + late time-outs = max(0, -status) + posts owed + permits |
| `AutoResetEvents.NoLostWakeUp` | udt-sys/udt/rsynch.h:125-141 | threads waiting while the status speaks of none have permits, there or owed, for all of them, and exactly as many if and only if no wait_for gave up too late |
| `AutoResetEvents.WakesUp` | udt-sys/udt/rsynch.h:135-146 | a permit that is there or owed can let any sleeping thread through in at most two steps, without another set |
| `AutoResetEvents.NobodyLeftBehind` | udt-sys/udt/rsynch.h:125-155 | from every reachable state in which the status speaks of nobody, all that wait can get through or be done with giving up, without another set |
| `AutoResetEvents.SetReleases` | udt-sys/udt/rsynch.h:125-137 | in every reachable state, a set by any idle thread can let any sleeping thread through |
| `AutoResetEvents.SetGetsThrough` | udt-sys/udt/rsynch.h:125-133 | a set with nobody in between: the status goes up to at most 1, and a permit is posted exactly if somebody was waiting |
| `AutoResetEvents.WaitsExactly` | udt-sys/udt/rsynch.h:135-160 | a set event lets the next wait, wait_for or try_wait through at once and is unset; otherwise the first two begin to wait, and try_wait does nothing |
| `AutoResetEvents.GivesUp` | udt-sys/udt/rsynch.h:143-155 | a wait_for that runs out of time can always finish: with its place given back, a permit left behind, or the event taken after all |
| `AutoResetEvents.RemembersOne` | udt-sys/udt/rsynch.h:125-137 | with nobody waiting, the status alone is the number of sets remembered, 0 or 1, if and only if no wait_for gave up too late |
| `AutoResetEvents.LateTimeOutRemembersTwo` | udt-sys/udt/rsynch.h:139-155 | a run in which a late time-out leaves two sets remembered |
| `NpWire.FieldThere` | npwire/src/de.rs:62-70 | a number, string or qid that was written is read back, and what follows is left alone |
| `NpWire.FieldBack` | npwire/src/de.rs:62-70 | whatever can be read is exactly what writing the value gives |
| `NpWire.QidThere` | npwire/src/de.rs:52-60 | a qid survives its 13 bytes |
| `NpWire.QidBack` | npwire/src/ser.rs:13-21 | 13 bytes survive being a qid |
| `NpWire.FieldsFit` | npwire/src/ser.rs:23-27 | writing fails if and only if a string's length does not fit into two bytes |
| `NpLayout.RequestBytes` | npwire/src/ser/t.rs:173-191 | byte by byte, at which place everything in every serialized request stands: type, tag, fields in their order, numbers least significant byte first, strings behind their length |
| `NpLayout.ReplyBytes` | npwire/src/ser/r.rs:165-184 | the same of every serialized reply |
| `NpLayout.StatIsAt` | npwire/src/ser.rs:29-48 | the same of a stat |
| `NpLayout.RequestErrors` | npwire/src/de/t.rs:170-199 | which tag a refused request is refused by, and exactly which types are unknown or none of a request |
| `NpLayout.ReplyErrors` | npwire/src/de/r.rs:174-203 | the same of replies |
| `NpWire.StatThere` | npwire/src/de.rs:71-98 | yank_stat(put_stat(s) ++ rest) gives s and leaves rest |
| `NpWire.StatsThere` | npwire/src/de.rs:71-98 | a concatenation of stats is read back as the same list |
| `NpWire.TailThere` | npwire/src/de/t.rs:27-41 | lists, counted bytes and stats at the end of a message are read back |
| `NpWire.TailBack` | npwire/src/de/t.rs:67-79 | lists and counted bytes are accepted only as they are written; a stat is what writing gives if and only if both its sizes are right |
| `NpWire.AnySizes` | npwire/src/de.rs:71-98 | any two sizes in front of a stat give the same stat if and only if that much is there; one pair only is what writing gives |
| `NpBuffers.BytesMut.PutString` | npwire/src/ser.rs:23-27 | appends length and bytes, or fails if the length does not fit |
| `NpBuffers.BytesMut.PutStat` | npwire/src/ser.rs:29-48 | appends the stat behind its size, which is patched in afterwards; fails exactly when a size does not fit |
| `NpBuffers.Bytes.GetString` | npwire/src/de.rs:62-70 | takes a string off the front, or says that it is short or not UTF-8 |
| `NpBuffers.Bytes.YankStat` | npwire/src/de.rs:71-98 | takes a stat off the front as specified |
| `NpSerialize.SerializeT` | npwire/src/ser/t.rs:173-191 | every request's serializer writes its specified bytes, or fails exactly when a length does not fit |
| `NpSerialize.SerializeR` | npwire/src/ser/r.rs:165-184 | every reply's serializer writes its specified bytes, or fails exactly when a length does not fit |
| `NpSerialize.Twalk` | npwire/src/ser/t.rs:49-62 | the loop over the names |
| `NpSerialize.PutInfo` | npwire/src/ser/t.rs:155-170 | the second size of a stat, patched in afterwards |
| `NpSerialize.Rwalk` | npwire/src/ser/r.rs:23-34 | the loop over the qids |
| `NpDeserialize.DeserializeT` | npwire/src/de/t.rs:170-199 | every request's parser yields the specified message or error |
| `NpDeserialize.DeserializeR` | npwire/src/de/r.rs:174-203 | every reply's parser yields the specified message or error |
| `NpDeserialize.GetNames` | npwire/src/de/t.rs:31-35 | the loop over the names |
| `NpDeserialize.GetIds` | npwire/src/de/r.rs:58-73 | the loop over the qids |
| `NpTMessages.RoundTrip` | npwire/src/de/t.rs:170-199 | a serialized request is read back with its tag; it comes back the same if and only if it is not a Treads, which comes back as a Tread |
| `NpTMessages.OnlyWhatIsWritten` | npwire/src/de/t.rs:170-199 | of what is accepted, a Twstat is what serializing gives if and only if its two sizes are right, a Treads never is, everything else always is, with anything behind it for Tauth and Tattach |
| `NpTMessages.SizesAreNotCompared` | npwire/src/de/t.rs:154-166 | for every stat, exactly which pairs of sizes a Twstat is accepted with, two zeros among them, and which one is what serializing gives |
| `NpTMessages.MoreIsAccepted` | npwire/src/de/t.rs:101-118 | Tauth and Tattach are accepted whatever follows them |
| `NpRMessages.RoundTrip` | npwire/src/de/r.rs:174-203 | a serialized reply is read back with its tag; an Rreads is refused as unsupported |
| `NpRMessages.OnlyWhatIsWritten` | npwire/src/de/r.rs:174-203 | of what is accepted, an Rstat is what serializing gives if and only if its two sizes are right, and everything else always is |
| `NpRMessages.SizesAreNotCompared` | npwire/src/de/r.rs:149-160 | for every stat, exactly which pairs of sizes an Rstat is accepted with, two zeros among them, and which one is what serializing gives |
| `ServerSessions.AnyRun` | server/src/np/client.rs:254-372 | whatever the client does, and whichever request a tag used twice is taken for: every accepted request is answered, outstanding, due or lost, exactly one of these and once; at most 16 are worked on; a session-resetting Tversion is answered after everything before it, with an empty fid table |
| `ServerSessions.NothingTwice` | server/src/np/client.rs:348-369 | no request is answered twice |
| `ServerSessions.ObedientRun` | server/src/np/client.rs:311-360 | with distinct tags, one Tflush per tag and none for a Tflush, nothing is lost, and each Rflush comes after the answers to all earlier requests with the tag it names |
| `ServerSessions.SecondFlushLosesFirst` | server/src/np/client.rs:312-313 | a second Tflush for a request that one waits for already means the first is never answered, in any continuation |
| `ServerSessions.LostExactly` | server/src/np/client.rs:311-321 | in every run, whichever matching future a Tflush finds, a request is lost if and only if it is a Tflush that waited for a future when another Tflush was taken for that future; once nothing is outstanding, all others have been answered |
| `ServerSessions.NothingLost` | server/src/np/client.rs:311-321 | so nothing is lost if and only if no Tflush is ever taken for a future that one waits for |
| `ServerSessions.InitializedExactly` | server/src/np/client.rs:256-275 | in every run, the session is initialized if and only if a Tversion with the reserved tag and a size of at least 256 has been answered |
| `ServerSessions.AcceptedExactly` | server/src/np/client.rs:283-347 | in every run, a request that arrives is accepted if and only if fewer than 16 are in flight, no reset is due, and a session has been started or it is a Tversion |
| `ServerSessions.EverythingAnswerable` | server/src/np/client.rs:348-370 | from every reachable state, finishing what is in flight and starting the session that is due answers everything that is not lost, and the loop listens again |
| `ServerSessions.StepMoves` | server/src/np/client.rs:288-369 | a step moves requests between these places and adds only the one it accepts |
| `ServerSessions.StepResets` | server/src/np/client.rs:258-275 | a session starts anew only when nothing is outstanding |
| `ServerSessions.ClearedNow` | server/src/np/client.rs:311-321 | when a Tflush is accepted, every earlier request with the tag is answered, except for the one it is attached to |
| `ServerSessions.Client.TopOfLoop` | server/src/np/client.rs:258-275 | the top of the loop makes the reset step; the session is initialized then exactly if it was before, or a reset was due, nothing was in flight and its size is at least 256 |
| `ServerSessions.Client.FindTag` | server/src/np/client.rs:312-312 | some pending request with the tag whenever there is one, in whatever order they are looked at |
| `ServerSessions.Client.Receive` | server/src/np/client.rs:283-347 | taking in one message makes the arrival step, in all cases |
| `ServerSessions.Client.SendReady` | server/src/np/client.rs:348-370 | the sending loop makes one finishing step after the other: the reply, and right after it the Rflush that waits for it |

## Left out

- Message expiry and drop requests between the two ends (ttl other than -1): the shipped transport sets no ttl; drop marks are modelled in the receive buffer only.
- Unordered messages between the two ends: the network theorems are for in-order messages, which is what the transport sends; `Delivery` covers the mix within the receive buffer.
- `CRcvLossList::remove` of a range: only drop requests use it.
- Memory layout and release: the payload pool of the send buffer, the destructors of the send buffer and of the loss lists; `Block` holds its bytes as a value.
- Clocks, round-trip times, bandwidth and congestion control: the congestion window, the time stamps and "less than a round trip ago" are arbitrary inputs.
- Threads, locks and memory orderings: each call is one step, each atomic operation of `AutoResetEvent` one step.
- The operating system, sockets, handshake packets, the socket tables, `CCache`, encryption and everything around the server: inputs and outputs only.
- The periodic NAK report, which is commented out in the source: `getLossArray` is modelled, but no step of the protocol calls it.
- Senders.Sender.ProcessNak: takes words that encode ranges; the source reads beyond a NAK whose last word announces another one.
- SndBuffers.SndBuffer.ReadAt: does not skip messages whose time to live has run out, because no message has one.
- Senders.Sender.PackData: does not report expired messages to the other end, for the same reason, and says nothing of the next sending time.
- Senders.Sender.PackLost: the same.
- Overflow of sums of 32-bit positions (for example a slot index plus an offset): integers are unbounded.
- Senders.Sender.ProcessLightAck: requires that the number has been sent, which the source does not check; an honest receiver never acknowledges more (`Networks.AckSafety`).
- Networks.EndToEnd: a delivery needs the message to be less than 2^30-1 packets old, because an older number would name another packet; the network is free otherwise.
- Networks.Cursors: a connection whose peer stays silent for 16 expirations and 5 seconds is given up by `checkTimers` (udt-sys/udt/core.cpp:1906), which is not modelled, like every other use of the clock; nor is closing a connection.
- Progress.NeverStuck: says that a continuation exists, not that every fair schedule takes it; and it asks that an acknowledgement was confirmed within the last 2^30-1 packets. `Completions.CanFinish` is the exact condition.
- Completions.CanFinish: that the condition is enough is proved while the sequence numbers have not gone all the way round since the last confirmed ACK; that it is needed, always.
- Simulations.EveryRun: a datagram lasts a fixed number of calls, which is coarser than the limit of `Networks.EndToEnd`, and with the window stays below 2^30-1.
- UnitQueues.UnitQueue.Increase: there is always memory for another entry.
- Connections.Connection.Ack2Arrives: the ACK it answers must be one of the latest 2^30-1 full ACKs, because their numbers wrap as well.
- RcvBuffers.RcvBuffer.ReadMsg: returns the bytes rather than their number.
- SndULists.SndUList.Update: requires room for a node that is not on the heap yet, which the source does not check; interrupting the timer is a boolean result, and the condition variable, which is signalled when the first node joins, is left out.
- Inserting into the heap from more than one queue: one heap is modelled, and all nodes it may hold are given at the start.
- The handlers that work out requests: they change the fid table arbitrarily while something is in flight (`Dispatch`), and the contents of replies are not modelled.
- UTF-8 strings are byte sequences that satisfy the standard's grammar (section 4 of RFC 3629).
