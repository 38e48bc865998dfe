# Verified models of libre

A Dafny model of the parts of libre (the `re` and `rem` libraries) whose correctness rests on more
than one function: packetizers and their receivers, codecs with back-patching and compression, a
work pool shared by threads, protocol state machines and in-place signal processing.

Each part has a functional specification, an independent counterpart (a receiver, an inverse, a
direct definition) with theorems that connect the two for all inputs or all runs, and, where the
source updates state, classes and loops proved equal to the specification.

| files | what they model |
|---|---|
| `Leb128`, `Av1Obu`, `Av1Fragment`, `Av1Packets`, `Av1Packetizer` | the AV1 RTP packetizer |
| `Av1Reassembly`, `Av1Run`, `Av1Full` | its receiver, by the AV1 RTP payload format, the end-to-end theorems, and how full packets are |
| `Async`, `AsyncInv`, `AsyncRuns`, `AsyncProgress`, `AsyncOrigin`, `AsyncOrder`, `AsyncLeftOver` | the asynchronous work pool as a step system over all interleavings |
| `DnsName`, `DnsTable`, `DnsCodec`, `DnsBuffer` | DNS names with compression (section 4.1.4 of RFC 1035) over the hash table |
| `DnsRoundTrip`, `DnsMessage`, `DnsCompress` | what every table entry and every name written keeps meaning, and how far names are compressed |
| `Bits`, `BitIo`, `DdCodec`, `DdWriter`, `DdReader` | the Dependency Descriptor, bit by bit |
| `DdRoundTrip`, `DdAccepted`, `DdActive`, `DdStays`, `DdTables` | its round trip, what it accepts, and when it stays in its tables |
| `AnnexB`, `H264`, `H265`, `Stap`, `Depacketizer` | start codes, fragmentation and aggregation (RFC 6184, RFC 7798) |
| `Bfcp`, `BfcpMessage`, `BfcpWriter`, `BfcpBuffer` | the BFCP attribute tree and messages (RFC 4582) |
| `BfcpClient`, `BfcpAnswers`, `BfcpConn` | the BFCP client's queue, retransmissions, time-outs and answers |
| `HttpChunk`, `HttpHex`, `HttpLimit`, `HttpRecv` | the chunked transfer decoder (section 3.6.1 of RFC 2616) |
| `Aubuf`, `AubufLimit`, `AubufHeard`, `AubufBuffer` | the audio buffer |
| `Fir`, `Resamp`, `Auresamp` | the FIR filter and the resampler |
| `Vidmix`, `VidmixLayout` | the video mixer's layout |
| `WireExamples` | single values of the formats, spelled out |
| `Bytes`, `Bitwise` | shared definitions |

`dafny verify dfyconfig.toml` checks the whole project.

## What the models take as given

- Integers are unbounded except where a width matters: the hash, the FIR index, the chunk size, length
  octets, transaction ids and the FIR ring's size and mask wrap as in the source.
- Sending, clocks, timers and jitter advice are inputs of the events; callbacks are recorded, and do not
  call back into the object that called them.
- Memory is never short. The descriptor's fixed tables are sequences; `InTables` is what they can hold, and the
  reader reports whether it stayed within them.
- `Verdict`, `Units` and the receivers (`Absorb`, `Parse`, `Spells`) are definitions of this project: they
  say what the wire formats mean, not what some other program does.

## Properties that do not hold as one would first state them

- AV1 unit boundaries: an OBU may be cut although it does not end its packet. `Av1Run.AnyStreamReassembles`
  gives the exact condition, `Av1Run.SplitExample` a case, `Av1Run.TrapFamily` an infinite family.
- LEB128: the writer takes 64-bit values, the reader stops at 56 bits (`Leb128.RoundTripExactly`).
- H.264 packet size: a unit one byte longer than the limit makes a packet one byte too long
  (`H264.SendWithinLimit`).
- H.265 start codes: a zero byte of a 4-byte start code sticks to the unit before it (`AnnexB.FoundExactly`).
- Audio buffer limit: one packet more than the limit is not all that can be there. `AubufLimit.LimitExactly`
  gives the exact condition, `AubufLimit.OutOfOrderGrows` a run, `AubufLimit.AnyRunBounded` what holds always.
- Audio buffer underrun: samples that the buffer does not have are documented as silence. A first read that drops
  old frames may leave what the caller's array held instead (`AubufHeard.SilentExactly`, `AubufHeard.StaleSample`).
- Resampler cutoff: above six to one, the filter chosen lets pass more than half the lower rate
  (`Auresamp.CutoffSuits`).
- Mixer slots: with a focus that is not shown and an even number of sources, from six on, the last one has no
  slot (`Vidmix.RoomExactly`, `Vidmix.SixthIsLost`).
- Work pool: an item's error is not cleared when the item is reused, so a submission without a work handler
  hands its callback the error left there (`AsyncRuns.LeftOverReported`, `AsyncLeftOver.CallbackGetsLeftOver`).
- HTTP body over the limit: what is left of it depends on how the stream was cut
  (`HttpLimit.OverflowLeaves`, `HttpLimit.CutsLeaveDifferentBodies`).
- Dependency Descriptor: the reader accepts structures that its tables cannot hold (`DdReader.Decode`,
  `DdTables.AcceptedOutsideTables`), and refuses others too late (`DdTables.RefusedOutsideTables`).
- FIR filter: channels times taps is computed in 32 bits, so some settings that no ring can serve are not
  turned down (`Fir.OutputConvolves`, `Fir.WrappedRing`).
- H.264 start codes: where two meet, the source computes a length of minus one (`AnnexB.EmptyExactly`,
  `AnnexB.MeetingCodes`).
- BFCP values: one longer than the length octet can say is partly overwritten by what follows
  (`BfcpWriter.AppendsExactly`, `BfcpWriter.LongText`).

## Model

| member | source | states |
|---|---|---|
| `Leb128.CalcSize` | src/av1/pkt.c:51-64 | the loop's byte count is the length of what the LEB128 writer writes, for every value |
| `Leb128.Write` | src/av1/obu.c:46-65 | the writing loop appends the base-128 code word, continuation bits set on all bytes but the last |
| `Leb128.ReadFrom` | src/av1/obu.c:77-102 | the reading loop returns the value and length of the code word at any position, or an error where the buffer ends inside it |
| `Leb128.RoundTrip` | src/av1/obu.c:46-102 | a code word is read back with its length from any context, so no code word is a prefix of another |
| `Leb128.RoundTripExactly` | src/av1/obu.c:77-102 | the reader, which stops after eight groups, inverts the writer if and only if the value is below 2^56 |
| `Leb128.CutShort` | src/av1/obu.c:77-102 | a code word that breaks off is reported, never taken for another one |
| `Leb128.SizeBound` | src/av1/pkt.c:51-64 | a value takes at most k bytes if and only if it is below 128^k |
| `WireExamples.LebOf300` | src/av1/obu.c:46-65 | 300 is AC 02: the least significant group first |
| `Av1Obu.DecodeAt` | src/av1/obu.c:148-203 | reads an OBU header and optional size at a position: type, payload size and header length, or the error of the first check that fails |
| `Av1Obu.HeaderRoundTrip` | src/av1/obu.c:116-203 | an encoded OBU is read back with its type, payload and length, with and without a size field |
| `Av1Obu.CutShort` | src/av1/obu.c:148-203 | an OBU with a size that breaks off anywhere, in its size field or in its payload, is refused |
| `Av1Obu.FlagsRefused` | src/av1/obu.c:148-203 | the forbidden bit is refused as malformed, an extension header as not supported |
| `Av1Obu.SkippedTypes` | src/av1/obu.c:19-34 | reserved types, temporal delimiters, tile lists and padding are the types not carried |
| `Av1Obu.FeedOfEncoded` | src/av1/pkt.c:101-132 | walking a stream of encoded OBUs yields exactly the allowed ones, in order, each as header byte without size flag plus payload |
| `Av1Fragment.FragmentFits` | src/av1/pkt.c:198-311 | the chosen fragment and its prefix fit the room left, the first three are never empty, and the look-ahead leaves room for the next element |
| `Av1Fragment.ShortenedFills` | src/av1/pkt.c:198-220 | shortening a prefixed fragment wastes at most one byte of the packet |
| `Av1Fragment.WithPrefixWhole` | src/av1/pkt.c:198-220 | an OBU is taken whole exactly if it fits with its length prefix; otherwise what is taken is the room less the old prefix |
| `Av1Fragment.SplitIffTrap` | src/av1/pkt.c:240-311 | among the first three elements, one with a prefix is cut short if and only if it is one of the first two, more input follows, and the room exceeds the OBU but is at most 128^k + k, where k is one less than the length of the OBU's prefix |
| `Av1Packets.AggrRoundTrip` | src/av1/depack.c:21-41 | the aggregation header's Z, Y, W and N come back from its byte |
| `WireExamples.AggregationHeaders` | src/av1/depack.c:21-41 | two aggregation headers as bytes |
| `Av1Packets.FillShape` | src/av1/pkt.c:323-374 | a filled packet is within its room, has no empty element, and only its last element may lack a length, exactly when W counts the elements |
| `Av1Packets.PacketParses` | src/av1/pkt.c:323-374 | a receiver that goes by the W field alone gets exactly the elements put in, for every packet |
| `Av1Reassembly.FillStops` | src/av1/pkt.c:335-370 | a packet takes no further element exactly when a prefix is due and at most one byte is free |
| `Av1Reassembly.FillKeeps` | src/av1/pkt.c:323-374 | the elements of a packet and the units left regroup into the original units, with one extra cut for each trap |
| `Av1Reassembly.ReceivedUnits` | src/av1/pkt.c:430-453 | over a whole run the receiver loses no byte, sees one unit more per trap, and the exact units where there is none |
| `Av1Run.RunReassembles` | src/av1/pkt.c:430-453 | from any state of the receiver, absorbing a run's packets in order completes exactly the units that were sent |
| `Av1Run.RunDisciplined` | src/av1/pkt.c:430-453 | every packet is non-empty and within its size, Z repeats the previous Y, N is only on the first packet, the marker only on the last of a complete run, which leaves nothing open |
| `Av1Run.MoreToCome` | src/av1/pkt.c:430-453 | a run with a unit left to send sends a packet or reports an error |
| `Av1Run.AnyStreamReassembles` | src/av1/pkt.c:391-458 | for every stream the OBU reader accepts and every packet size, all bytes of all allowed units arrive in order and nothing else; unit boundaries are exact if and only if no fragment choice lands in its trap |
| `Av1Run.EndToEnd` | src/av1/pkt.c:391-458 | the same from any list of OBUs written out: exactly the allowed ones arrive |
| `Av1Run.SmallPacketsExact` | src/av1/pkt.c:198-311 | with at most 128 payload bytes per packet no fragment choice is a trap, so unit boundaries are always exact |
| `Av1Run.TrapFamily` | src/av1/pkt.c:272-285 | every OBU of 128^k bytes that opens a packet with 1 to k bytes more, and is not the last, is cut in mid-packet |
| `Av1Run.SplitExample` | src/av1/pkt.c:208-216 | a concrete frame for which the receiver sees more units than were sent (packet size 130) |
| `Av1Full.BareFills` | src/av1/pkt.c:263-311 | an element without a prefix after which more is to be sent leaves at most a prefix and one byte of the packet free |
| `Av1Full.FillIsFull` | src/av1/pkt.c:323-374 | a packet after which more is to be sent is full, but for a prefix and one byte; with at most three elements its last one has no prefix, unless only skipped units follow |
| `Av1Full.WidthExactly` | src/av1/pkt.c:356-374 | W is the number of elements if there are at most three, unless only skipped units follow, and zero if there are more |
| `Av1Full.FeedLastEnds` | src/av1/pkt.c:246-248 | the unit after which no input is left ends the feed |
| `Av1Full.RunIsFull` | src/av1/pkt.c:430-453 | every packet of a run but its final one is full in this sense, so that units share packets |
| `Av1Full.StreamFillsPackets` | src/av1/pkt.c:391-458 | the same for every stream, accepted or broken |
| `Av1Packetizer.Context.constructor` | src/av1/pkt.c:391-430 | a new context stands at the front of the input with no current OBU |
| `Av1Packetizer.Context.UpdateCurrObu` | src/av1/pkt.c:101-132 | skips to the next OBU that RTP may carry; the context then holds the head of the remaining feed, or the reader's error |
| `Av1Packetizer.Context.CopyFragment` | src/av1/pkt.c:149-183 | appends one element, header byte first, and consumes exactly its bytes of the current OBU |
| `Av1Packetizer.Context.CopyObusToPacket` | src/av1/pkt.c:323-374 | the filling loop builds the packet, W, Y and the rest of the feed that one functional fill gives, or its error |
| `Av1Packetizer.Packetize` | src/av1/pkt.c:391-458 | packets, error and new-sequence flag are those of the run above, cut after a packet that the handler refuses; an empty buffer or a packet size below two is refused |
| `AsyncInv.StepKeeps` | src/async/async.c:43-368 | every step of submitters, workers, main loop, cancellers and shutdown keeps the pool's invariant |
| `AsyncInv.SubmitKeeps` | src/async/async.c:279-312 | the invariant holds after a free or new item has gone to the tail of the work list |
| `AsyncInv.TakeKeeps` | src/async/async.c:43-83 | the invariant holds after a worker takes the head of the work list to the current list |
| `AsyncInv.BeginKeeps` | src/async/async.c:43-83 | the invariant holds after a worker starts the handler of the item it took, unless it was cancelled |
| `AsyncInv.EndKeeps` | src/async/async.c:43-83 | the invariant holds after the handler returns and its result is stored in the item still held |
| `AsyncInv.PushKeeps` | src/async/async.c:43-83 | the invariant holds after the item passes from the worker to the message queue |
| `AsyncInv.PopKeeps` | src/async/async.c:147-164 | the invariant holds after the main loop takes the oldest message |
| `AsyncInv.CallKeeps` | src/async/async.c:147-164 | the invariant holds after the callback starts with the stored error, unless the item was cancelled |
| `AsyncInv.RecycleKeeps` | src/async/async.c:147-164 | the invariant holds after an item goes from the current to the free list |
| `AsyncInv.CancelStartKeeps` | src/async/async.c:321-368 | the invariant holds after a cancel has collected the items with its id |
| `AsyncInv.CancelOneKeeps` | src/async/async.c:321-368 | the invariant holds after a cancel has recycled a waiting item or cleared the handlers of one taken |
| `AsyncInv.NotifyKeeps` | src/async/async.c:86-127 | the invariant holds after shutdown has notified one remaining callback |
| `AsyncRuns.RunInv` | src/async/async.c:43-368 | in every state of every run the invariant holds and the lists name only existing items, so each enabled step continues the run |
| `AsyncRuns.EveryItemInOnePlace` | src/async/async.c:43-83 | in every state of every run each item is in exactly one list, and the current list is the disjoint union of items held and items queued |
| `AsyncRuns.HandlersRunOnce` | src/async/async.c:43-164 | in every run a submission's work handler runs at most once and its callback or shutdown notice at most once, the callback after the handler and with its result, or without a handler with the error the item came with; one whose item was recycled uncancelled had both run exactly once |
| `AsyncRuns.LeftOverReported` | src/async/async.c:279-312 | a callback of a submission without a work handler is told of no error if and only if there was no free item, or no error was left in the one it was given |
| `AsyncLeftOver.CallbackGetsLeftOver` | src/async/async.c:43-312 | a run of one worker in which a callback without a work handler is given the error that an earlier submission's handler returned |
| `AsyncRuns.FrozenForGood` | src/async/async.c:321-368 | a cancelled submission at rest stays as it is for ever |
| `AsyncRuns.CancelIsFinal` | src/async/async.c:321-368 | once a cancel of an id has returned, no handler or callback of an earlier submission with it is running or ever starts |
| `AsyncOrigin.MadeBy` | src/async/async.c:279-312 | every submission on record was made by one call and carries the id and the handlers of that call |
| `AsyncOrigin.RunScanIds` | src/async/async.c:328-366 | in every run, what a canceller still has to visit carries its id |
| `AsyncOrigin.DroppedByCancel` | src/async/async.c:321-368 | in every run, a submission is dropped only by a cancel called after it and naming the id it was submitted with: all others are left alone |
| `AsyncOrigin.ResultReturned` | src/async/async.c:43-83 | the result on record for a submission is what its own work handler returned |
| `AsyncOrigin.CallbackGetsResult` | src/async/async.c:43-164 | a callback is given what the work handler of the same submission returned |
| `AsyncRuns.ShutdownNotifiesAll` | src/async/async.c:86-127 | after shutdown each submission not cancelled has been called back or notified exactly once, a cancelled one not notified |
| `AsyncProgress.LoadFalls` | src/async/async.c:43-368 | every step that the pool takes by itself lowers a bound on the steps still to come |
| `AsyncProgress.RunsOut` | src/async/async.c:43-368 | a pool that is left alone takes at most that many steps |
| `AsyncProgress.CancellerNeverDeadlocks` | src/async/async.c:321-368 | a canceller can go on, or the very item it waits for is in a callback or work handler that can return |
| `AsyncProgress.WorkerNeverStuck` | src/async/async.c:43-83 | without a canceller at work, a worker can always make its next step with the item it holds |
| `AsyncProgress.MainNeverStuck` | src/async/async.c:147-164 | without a canceller at work, the main loop can always go on with the item it is handling |
| `AsyncProgress.RestsWhenDone` | src/async/async.c:43-164 | a pool in service comes to rest only with nothing queued, nothing in hand and no canceller waiting |
| `AsyncProgress.RestsWhenClosed` | src/async/async.c:86-127 | a pool that is shut down comes to rest only when it is closed |
| `AsyncProgress.EverySubmissionServed` | src/async/async.c:43-164 | in every run, when the pool rests each uncancelled submission has had its handler and its callback run exactly once, or after a shutdown was called back or notified |
| `AsyncOrigin.UncancelledServed` | src/async/async.c:43-368 | in every run, when the pool rests a submission whose id was not cancelled since has had the handlers it was submitted with run exactly once each |
| `AsyncOrder.TakenInOrder` | src/async/async.c:43-83 | in every run, with cancels in between or not, workers take submissions in the order they were made |
| `AsyncOrder.PoppedInOrder` | src/async/async.c:147-164 | in every run, what was pushed to the message queue is what was popped, followed by what is in the queue: first in, first out |
| `AsyncOrder.ReusedInOrder` | src/async/async.c:279-312 | in every run, items are used again in the order in which they became free |
| `Bitwise.MaskIsMod` | src/hash/hash.c:79-116 | masking with 2^k - 1 is the remainder modulo 2^k |
| `Bitwise.PowerOfTwoTest` | src/hash/hash.c:37-68 | n & (n - 1) is zero if and only if n is a power of two |
| `DnsTable.HashJoaatStrCi` | src/hash/func.c:100-114 | the 32-bit accumulator loop computes the hash of the lower-case text |
| `DnsTable.MixIgnoresCase` | src/hash/func.c:100-114 | names equal up to ASCII case hash alike |
| `DnsTable.HashOfA` | src/hash/func.c:100-114 | the hash of the letter a, in either case, is the published 0xca2e9442 |
| `DnsTable.SlotInRange` | src/hash/hash.c:79-116 | the masked key is an index of the bucket array |
| `DnsTable.BucketFind` | src/hash/hash.c:109-116 | looking only into a name's bucket finds exactly what a case-insensitive scan of all entries finds, for any table size |
| `DnsTable.Alloc` | src/hash/hash.c:37-68 | a table is allocated exactly for sizes that are powers of two |
| `DnsTable.Table.constructor` | src/hash/hash.c:37-68 | a new table has no entries |
| `DnsTable.Table.Append` | src/dns/dname.c:37-55 | an entry goes to its bucket; the table is the old one with the entry appended |
| `DnsTable.Table.Lookup` | src/dns/dname.c:66-71 | the bucket walk returns the first entry, in order of insertion, equal up to case |
| `DnsName.LabelsCI` | src/dns/dname.c:91-150 | names equal up to case have the same labels up to case |
| `DnsName.TextOfLabels` | src/dns/dname.c:91-222 | joining the labels of a writable name with dots gives the name without a final dot |
| `DnsCodec.DecodeResumes` | src/dns/dname.c:162-222 | on every buffer, with cyclic pointers or not, decoding ends; a name has at most 255 characters and reading resumes right after the first pointer, or after the zero byte |
| `DnsCodec.SelfPointerFails` | src/dns/dname.c:189-206 | a pointer to itself is given up |
| `DnsRoundTrip.EncodeSpells` | src/dns/dname.c:91-150 | an encode appends bytes that spell the name and keeps every table entry pointing at a spelling of its key |
| `DnsRoundTrip.DecodeSpells` | src/dns/dname.c:162-222 | decoding where labels are spelled yields their text up to case and stops where they end |
| `DnsMessage.RunKeeps` | src/dns/dname.c:91-150 | writes of well-formed names to one buffer and table, with or without compression and with other bytes between them, never fail and keep the table sound |
| `DnsMessage.EveryNameReadsBack` | src/dns/dname.c:91-222 | after any such writes every name reads back in the finished message, up to case and a final dot, and the reader stops just after it |
| `DnsCompress.EncodeTold` | src/dns/dname.c:91-150 | against any table: the bytes a name takes, and that the table learns exactly its tails written label by label where they can be pointed at |
| `DnsCompress.KnownIsSeen` | src/dns/dname.c:37-55 | in a message the table knows a name if and only if it is, up to case, a tail of a name put before at an offset of at most fourteen bits |
| `DnsCompress.WrittenLength` | src/dns/dname.c:91-150 | a name takes, with compression, what comes before its longest tail seen so far and two bytes; without it, or if no tail was seen, its full length |
| `DnsCompress.WrittenAgain` | src/dns/dname.c:102-106 | a name equal up to case to one written before takes two bytes |
| `WireExamples.NameTwice` | src/dns/dname.c:91-150 | the name a put twice into an empty message is 01 61 00 C0 00 |
| `DnsCompress.NoTable` | src/dns/dname.c:91-150 | without a table every name takes its full length |
| `DnsCompress.EncodeRefuses` | src/dns/dname.c:112-147 | a name is refused if and only if it has an empty label, other than the root name or a final dot, before any tail the table knows |
| `DnsBuffer.DecodeName` | src/dns/dname.c:162-222 | the loop over a 256-byte text buffer computes the functional decoder and stays inside both buffers |
| `DnsBuffer.Message.Encode` | src/dns/dname.c:91-150 | pointer, root name or labels: error, buffer and table are those of the functional encoder, also after the EINVAL of an empty label |
| `DnsBuffer.Message.EncodeLabels` | src/dns/dname.c:112-147 | the character loop with back-patched length bytes leaves the buffer and table of the functional labels, complete or refused half way |
| `DnsBuffer.Message.AppendEntry` | src/dns/dname.c:37-55 | a name is recorded unless it is empty, lies beyond the offset limit or there is no table |
| `Bits.NsRoundTrip` | src/dd/putbit.c:80-108 | ns(n) reads back every v < n from any context for all n >= 1, so the code is exact and prefix-free |
| `WireExamples.NsOfFive` | src/dd/putbit.c:80-108 | the bits of ns(5) for short and long values |
| `BitIo.PutBit.constructor` | src/dd/putbit.c:12-21 | a new writer has written nothing |
| `BitIo.PutBit.One` | src/dd/putbit.c:24-55 | one bit is appended, the buffer doubling when it is full, and no earlier bit changes |
| `BitIo.PutBit.Write` | src/dd/putbit.c:58-77 | the low bits of a value are appended, most significant first; more than 32 bits are refused |
| `BitIo.PutBit.WriteNs` | src/dd/putbit.c:80-108 | the value is appended in ns(n) |
| `BitIo.GetBit.Read1` | src/h264/getbit.c:41-61 | the next bit, or 0 past the end |
| `BitIo.GetBit.Read` | src/h264/getbit.c:109-125 | the number in the next bits; 0 and nothing consumed when there are too few |
| `BitIo.GetBit.ReadNs` | src/h264/getbit.c:136-156 | the ns(n) value at the reader's position |
| `DdRoundTrip.LayersBack` | src/dd/dd.c:71-111 | the template layers come back from their steps |
| `WireExamples.LayerCodes` | src/dd/dd.c:71-111 | what each of the four layer steps means to the reader, in any context |
| `DdRoundTrip.FdiffsBack` | src/dd/dd.c:137-169 | the frame differences come back from their follow flags |
| `DdRoundTrip.ChainsBack` | src/dd/dd.c:172-202 | chain count, protecting chains and chain differences come back |
| `DdRoundTrip.StructureBack` | src/dd/dd.c:224-261 | a dependency structure whose fields fit their widths and whose layers follow one another is written, and read back from any context |
| `DdRoundTrip.RoundTrip` | src/dd/dd.c:301-328 | every well-formed descriptor, which the tables can hold, is written and, in whole bytes with any padding, read back with every field |
| `DdAccepted.GetNsBelow` | src/h264/getbit.c:136-156 | whatever the bits, ns(n) reads a value below n |
| `DdAccepted.StructureAccepted` | src/dd/dd.c:224-261 | a structure accepted from any bits has legal layers, all fields in the range of their bits and consistent chains; only the sizes of the tables are not assured |
| `DdAccepted.Accepted` | src/dd/dd.c:301-328 | a descriptor accepted from any bits, without explicit active targets, is one that its bits can express |
| `DdAccepted.RoundTripExactly` | src/dd/dd_enc.c:255-275 | a descriptor that the tables hold and that can be written survives writing and reading if and only if it is well formed |
| `DdAccepted.ValsExactly` | src/dd/dd.c:114-134 | values are read if and only if all their bits are there |
| `DdAccepted.RowsExactly` | src/dd/dd.c:114-134 | so are the rows of the indication table |
| `DdAccepted.SizesExactly` | src/dd/dd.c:205-221 | and picture sizes |
| `DdActive.ActiveBack` | src/dd/dd.c:264-292 | extended fields with an explicit mask of active targets come back from their bits, the mask one bit for each target |
| `DdActive.ActiveReadsBack` | src/dd/dd.c:301-328 | so does a whole descriptor with such a mask, with any padding |
| `DdActive.ActiveAccepted` | src/dd/dd.c:264-292 | extended fields with a mask, accepted from any bits, are ones that their bits can express |
| `DdTables.AcceptedOutsideTables` | src/dd/dd.c:114-134 | eleven bytes that the reader accepts, with 17 decode targets for tables of 16 |
| `DdTables.RefusedOutsideTables` | src/dd/dd.c:114-169 | ten bytes that the reader refuses after it has stored a 17th indication outside its row |
| `DdStays.StaysIfHeld` | src/dd/dd.c:114-261 | on bits that are accepted, the condition for staying inside the tables is that they can hold what was read |
| `DdStays.DecodeStaysIfHeld` | src/dd/dd.c:301-328 | the same for whole descriptors |
| `DdWriter.TemplateLayers` | src/dd/dd_enc.c:55-72 | the layer loop writes the steps, or reports the template that does not follow its predecessor |
| `DdWriter.TemplateFdiffs` | src/dd/dd_enc.c:97-130 | the nested loops write each row of frame differences with its flags, a difference of zero as fifteen |
| `DdWriter.TemplateChains` | src/dd/dd_enc.c:133-170 | the loops write the chain section |
| `DdWriter.DependencyStructure` | src/dd/dd_enc.c:185-224 | all sections in order, or EBADMSG |
| `DdWriter.ExtendedFields` | src/dd/dd_enc.c:227-252 | flags and structure; ENOTSUP when active targets are present |
| `DdWriter.Encode` | src/dd/dd_enc.c:255-275 | the bytes written begin with the descriptor's bits and end less than a byte later; the error is the one of the section that fails |
| `DdReader.TemplateLayers` | src/dd/dd.c:71-111 | the layer loop reads the steps, at most eight templates |
| `DdReader.TemplateDtis` | src/dd/dd.c:114-134 | the nested loops read the indications; on any bits they stay in their table if and only if there are at most sixteen targets or fewer than 34 bits |
| `DdReader.TemplateFdiffs` | src/dd/dd.c:137-169 | the nested loops read the frame differences; on any bits they stay in their table if and only if no template's run of differences goes beyond sixteen before the bits end |
| `DdReader.TemplateChains` | src/dd/dd.c:172-202 | the chain section, values missing at the end read as zeros; with chains it stays in its tables exactly if there are at most sixteen targets |
| `DdReader.RenderResolutions` | src/dd/dd.c:205-221 | one pair of sizes per spatial layer; on any bits they stay in their tables if and only if there are at most four or fewer than 160 bits |
| `DdReader.DependencyStructure` | src/dd/dd.c:224-261 | all sections in order, with the error of the first that fails; on any bits, accepted or refused, the reader stays inside its tables if and only if every section it reaches does |
| `DdReader.Decode` | src/dd/dd.c:301-328 | the descriptor or the error that the functional reader gives for the bytes' bits; for all bytes, exactly when the reader stays inside its tables, which on acceptance is when they can hold the descriptor |
| `DdReader.BytesReadBack` | src/dd/dd.c:301-328 | the bytes the writer leaves for a well-formed descriptor are read as that descriptor |
| `AnnexB.ZeroFilterExact` | src/h264/nal.c:158-192 | the word filter passes exactly the words with a zero byte |
| `AnnexB.FindStartcode` | src/h264/nal.c:158-192 | for every buffer and alignment the word-at-a-time search returns the first position before the last three bytes that holds 00 00 01, or the end |
| `AnnexB.FindCode` | src/h264/nal.c:195-204 | the search steps back over the zero byte of a 4-byte start code |
| `AnnexB.SplitOfStream` | src/h264/nal.c:271-297 | splitting a stream of legal NAL units gives them back up to the zero bytes a 3-byte search misses |
| `AnnexB.FoundExactly` | src/h265/nal.c:224-252 | the split is exact if and only if the 4-byte rule is on or no unit after the first has a 4-byte start code |
| `AnnexB.EmptyExactly` | src/h264/nal.c:271-297 | a split has an empty unit if and only if two start codes meet in the stream |
| `AnnexB.MeetingCodes` | src/h264/nal.c:271-297 | a stream of seven bytes with an empty unit |
| `H264.NalSend` | src/h264/nal.c:216-255 | the fragment loop sends the single packet or the FU-A packets of the functional sender |
| `H264.Packetize` | src/h264/nal.c:271-297 | the packets of all NAL units of the stream, marker on the last, or up to the place where two start codes meet, beyond which the source's run is not defined |
| `H264.SendReassembles` | src/h264/nal.c:216-255 | a receiver that checks Start, End and type gets back any NAL unit from its packets |
| `H264.StreamReassembles` | src/h264/nal.c:216-297 | from Annex-B units with 3- or 4-byte start codes through packets of any size above two back to the same units |
| `H264.FragmentSizes` | src/h264/nal.c:216-255 | fragments are within the size plus their two header bytes, at least two of them, the marker only on the last |
| `H264.FragmentsExactly` | src/h264/nal.c:216-255 | fragments are as few as can be, all full but the last, with Start on the first and End on the last only |
| `H264.SendExactly` | src/h264/nal.c:216-255 | a whole unit with a body within the limit goes out as it is; any other is cut into such fragments behind an indicator of 28 and its importance bits |
| `H264.SendWithinLimit` | src/h264/nal.c:216-255 | a unit's packets keep to the size limit if and only if the unit is not exactly one byte longer than it |
| `H264.MarkerOnLastPacket` | src/h264/nal.c:271-297 | in a whole stream only the last packet has the marker |
| `H265.NalHeaderExact` | src/h265/nal.c:13-57 | a header is accepted if and only if it is the encoding of some type and temporal id, which it then yields |
| `H265.SendNal` | src/h265/nal.c:176-221 | the packets of one NAL unit, or an error for one longer than the limit whose header is refused: forbidden bit set or layer id not zero |
| `H265.FragmentsExactly` | src/h265/nal.c:176-221 | fragments are as few as can be, all full but the last, with Start on the first and End on the last only |
| `H265.SendExactly` | src/h265/nal.c:176-221 | a unit within the limit goes out as it is; any other with a good header is cut into such fragments behind a header of type 49 and its temporal id |
| `H265.Packetize` | src/h265/nal.c:224-252 | the packets of all units that can be sent, and whether all could |
| `H265.StreamReassembles` | src/h265/nal.c:176-252 | from Annex-B units with 3-byte start codes through packets of any size above three back to the same units |
| `H265.PacketsWithinLimit` | src/h265/nal.c:176-252 | every packet keeps to the limit and only the last of a stream has the marker |
| `Stap.NriMax` | src/h264/nal.c:320-365 | an upper bound of the units' NRI values that one of them attains |
| `Stap.Encode` | src/h264/nal.c:320-365 | the aggregate: header with the greatest NRI, then each unit with its length; ERANGE if and only if a unit exceeds 65535 bytes |
| `Stap.DecodeAnnexB` | src/h264/nal.c:368-407 | the aggregate's units with uniform start codes, or EBADMSG when lengths do not add up |
| `Stap.RoundTrip` | src/h264/nal.c:320-407 | aggregating a frame of legal units and converting it back gives the same units in order |
| `Stap.ParsedExactly` | src/h264/nal.c:368-407 | a payload is taken for a list of units if and only if it is those units, none empty, each behind its length, and at most one byte more |
| `Bfcp.Aligned` | src/bfcp/attr.c:126-140 | every encoded forest ends on a 32-bit boundary |
| `Bfcp.BodyReadsBack` | src/bfcp/attr.c:265-345 | each kind of value is read back from its own bytes |
| `Bfcp.AllRecords` | src/bfcp/attr.c:360-368 | on any bytes the types recorded are exactly the mandatory unknown ones among the attributes read, in reading order and behind those recorded before, up to sixteen |
| `Bfcp.AllReadBack` | src/bfcp/attr.c:58-417 | decoding an encoded forest gives back every type, mandatory bit, value and nesting, consumes all of it and reports nothing as unknown |
| `BfcpMessage.HeaderFields` | src/bfcp/msg.c:31-77 | all header fields come back from their bytes |
| `WireExamples.MessageHeader` | src/bfcp/msg.c:31-46 | a header as bytes, all numbers most significant byte first |
| `BfcpMessage.MsgReadsBack` | src/bfcp/msg.c:95-193 | a message is read back whole whatever follows it, and exactly its bytes are consumed |
| `BfcpMessage.PrefixWaits` | src/bfcp/msg.c:48-77 | every proper prefix of a message makes the reader ask for more data |
| `BfcpMessage.RefusedExactly` | src/bfcp/msg.c:48-77 | which bytes are refused and how: too few, a version other than one and two, the fragment bit, fewer words than announced; all else only for its attributes |
| `BfcpMessage.TwoByteAttribute` | src/bfcp/attr.c:232-388 | for each of the 128 types, what an attribute with two bytes of value reads as, and whether it is reported as unknown |
| `BfcpBuffer.Mbuf.WriteU8` | src/mbuf/mbuf.c:235-288 | one byte at the position, nothing else changes |
| `BfcpWriter.AppendsExactly` | src/bfcp/attr.c:127-208 | a forest of known types is appended as its encoding if and only if every value's length fits the length octet |
| `BfcpWriter.PositionAfter` | src/bfcp/attr.c:127-140 | a forest moves the position by the sum of its padded length octets, whatever the values |
| `BfcpWriter.DoneIfKnown` | src/bfcp/attr.c:122-125 | writing stops exactly at an attribute of unknown type |
| `BfcpWriter.MsgAppends` | src/bfcp/msg.c:95-120 | a message of known types whose values fit is appended as its encoding |
| `BfcpWriter.LongText` | src/bfcp/attr.c:127-133 | a text of 254 bytes leaves the position where it was |
| `BfcpBuffer.AttrEncode` | src/bfcp/attr.c:58-140 | value behind a hole, header into the hole, padding: bytes and position are those of the functional writer, for a value of any length and at any position |
| `BfcpBuffer.AttrsEncode` | src/bfcp/attr.c:152-208 | the recursive writer leaves the bytes and the position of the functional one, each group's length filled in after its members, for values of any length; EINVAL if and only if a type is unknown |
| `BfcpBuffer.MsgEncode` | src/bfcp/msg.c:95-120 | the header is written after the attributes with their length in words, for values of any length; if all fit, the message's encoding is appended |
| `BfcpBuffer.AttrDecode` | src/bfcp/attr.c:232-388 | one attribute, its padding skipped, with the outer end of the buffer restored |
| `BfcpBuffer.AttrsDecode` | src/bfcp/attr.c:391-417 | attributes from the next bytes only; the buffer's end is restored on success and on error |
| `BfcpBuffer.HdrDecode` | src/bfcp/msg.c:48-77 | header fields and the errors for version, fragmentation and missing data, in that order |
| `BfcpBuffer.MsgDecode` | src/bfcp/msg.c:161-193 | the message or error of the functional reader; a message not complete yet leaves the position where it was |
| `BfcpClient.StepKeeps` | src/bfcp/request.c:56-197 | every event keeps the client's invariant, with punctual timers and with late ones |
| `BfcpClient.DispatchKeeps` | src/bfcp/request.c:56-77 | dispatching leaves an empty idle queue or a head sent once with its timer running, whatever sendings fail |
| `BfcpClient.TimerKeeps` | src/bfcp/request.c:80-109 | a retransmission, a failed one and a time-out keep the invariant |
| `BfcpClient.HeadIsTimed` | src/bfcp/request.c:56-197 | in every run a waiting request means a running timer and a head sent one to four times, the others never |
| `BfcpClient.OneCallEach` | src/bfcp/request.c:56-197 | in every run handlers are called in order of acceptance, once for each request, and never for one still waiting |
| `BfcpClient.TimeoutAfter` | src/bfcp/request.c:80-109 | a time-out comes after four sendings and 500 + 1000 + 2000 + 4000 ms since the first: exactly with punctual timers, never earlier |
| `BfcpClient.TidsNeverZero` | src/bfcp/request.c:143-197 | the transaction id of every waiting request is 1 to 65535 |
| `BfcpClient.TidsRepeatLate` | src/bfcp/request.c:143-197 | two waiting requests share a transaction id only 65535 requests apart |
| `BfcpClient.TimerProgress` | src/bfcp/request.c:80-109 | each firing of the timer completes the head or uses up one of its four sendings |
| `BfcpAnswers.DispatchExactly` | src/bfcp/request.c:56-77 | dispatching tells each request that cannot be sent of its own error, and sends the first that can |
| `BfcpAnswers.ResponseExactly` | src/bfcp/request.c:112-140 | a response with all three ids of the head is handed to its handler; any other changes nothing |
| `BfcpAnswers.TimerExactly` | src/bfcp/request.c:80-109 | the timer sends the head again, or tells it of its time-out or its own error and goes on to those behind it; it answers none |
| `BfcpAnswers.RequestExactly` | src/bfcp/request.c:143-197 | a request is accepted if and only if it can be encoded and sent, or has to wait; it joins the end of the queue with its own ids |
| `BfcpAnswers.IssuedBy` | src/bfcp/request.c:143-197 | in every run, a waiting request carries the conference and user of the call that made it |
| `BfcpAnswers.AnsweredByOwn` | src/bfcp/request.c:112-140 | in every run, a handler is called with an answer only for a later response that names the conference, the user and the transaction id of its own request |
| `BfcpAnswers.HeadIsAnswered` | src/bfcp/request.c:112-140 | in every run, such a response to the head calls its handler once, and any other response changes nothing |
| `BfcpAnswers.AcceptedExactly` | src/bfcp/request.c:143-197 | in every run, the requests accepted are those that could be encoded and that could be sent or found others waiting |
| `BfcpConn.Connection.DispatchNext` | src/bfcp/request.c:56-77 | the loop calls the handlers of requests that cannot be sent and sends the next one |
| `BfcpConn.Connection.HandleTimer` | src/bfcp/request.c:80-109 | the timer handler is the timer step of the client |
| `BfcpConn.Connection.HandleResponse` | src/bfcp/request.c:112-140 | only a response with the head's transaction, conference and user id completes it |
| `BfcpConn.Connection.MakeRequest` | src/bfcp/request.c:143-197 | a request gets the next id; it is refused when it cannot be encoded or, alone in the queue, not be sent |
| `HttpChunk.FeedData` | src/http/client.c:254-275 | chunk bytes join the body as they are |
| `HttpChunk.SizeLineFeed` | src/http/chunk.c:13-56 | a size line with any hexadecimal spelling and extensions announces its chunk |
| `HttpHex.HexExactly` | src/http/chunk.c:13-56 | a character is a digit of value v if and only if v prints as it, in lower or upper case |
| `HttpHex.PrintedReads` | src/http/chunk.c:13-56 | a size printed in hexadecimal is read as itself, modulo the width of the size |
| `HttpHex.PrintedMessage` | src/http/chunk.c:13-111 | any body cut into chunks with printed sizes arrives, with any trailers |
| `HttpHex.RefusedExactly` | src/http/chunk.c:13-56 | outside its parameters a size line is refused exactly at a byte that is no digit, line end or white space, nor a semicolon after a digit |
| `HttpChunk.TrailerFeed` | src/http/chunk.c:59-74 | any trailer lines are skipped up to the empty line |
| `HttpChunk.MessageFeed` | src/http/chunk.c:13-111 | any list of non-empty chunks with extensions and trailers: the body is their concatenation and the end is recognised |
| `HttpLimit.ReceiveIsFeed` | src/http/client.c:244-320 | a segment taken in blocks is the segment taken byte by byte, unless the body comes over the limit |
| `HttpLimit.SegmentsDoNotMatter` | src/http/client.c:244-320 | however a stream is cut: state, body and verdict are those of its bytes one by one if their body is within the limit, and the verdict is the overflow if it is not |
| `HttpLimit.OverflowLeaves` | src/http/client.c:244-275 | over the limit, the body left is exactly the longest one that ends with a block, which is what one segment holds of one chunk, and is within the limit |
| `HttpLimit.BodyArrives` | src/http/client.c:244-320 | for any list of non-empty chunks with extensions and trailers, cut anyhow, the body is their concatenation and the end is recognised, exactly when the body fits the limit; otherwise the longest beginning is left that ends with a block and fits |
| `HttpLimit.CutsLeaveDifferentBodies` | src/http/client.c:244-251 | a chunk of five bytes with a limit of three leaves no body in one segment and two bytes when it is cut after two |
| `HttpRecv.Request.DecodeChunkSize` | src/http/chunk.c:13-56 | the resumable loop is the byte-wise decoder: complete line, more data needed, or protocol error |
| `HttpRecv.Request.DecodeTrailer` | src/http/chunk.c:59-74 | the trailer loop is the byte-wise decoder |
| `HttpRecv.Request.ChunkDecode` | src/http/chunk.c:77-111 | the size of the next chunk, or zero at the end of the body |
| `HttpRecv.Request.WriteBody` | src/http/client.c:254-275 | copies what the segment holds of the chunk as one block, or nothing when the body would exceed the limit |
| `HttpRecv.Request.Recv` | src/http/client.c:278-320 | one segment: error, end and body are those of taking it in blocks |
| `HttpRecv.Request.RecvAll` | src/http/client.c:464-537 | segments in turn until one ends the body or fails: error and end depend only on the stream, and so does the body if it fits; if not, the longest body is left that ends with a block and fits |
| `HttpRecv.Request.RecvPlain` | src/http/client.c:284-295 | a body with a known length is complete once that many bytes have arrived |
| `Aubuf.TakeQueue` | rem/aubuf/aubuf.c:77-120 | a read takes the front of the queue and leaves the rest, in order |
| `Aubuf.DropQueue` | rem/aubuf/aubuf.c:423-430 | the first-read drop removes whole frames from the front until the wished size is reached |
| `Aubuf.ReadQueue` | rem/aubuf/aubuf.c:374-452 | what a read drops and takes, once or twice, plus what stays is what there was, and the counters agree |
| `Aubuf.StepBalanced` | rem/aubuf/aubuf.c:270-521 | every call keeps the counters in agreement with the list |
| `Aubuf.Conservation` | rem/aubuf/aubuf.c:270-521 | in every run the current size is the sum of unread bytes, and written equals read plus dropped plus current since the last flush |
| `Aubuf.StartsWell` | rem/aubuf/aubuf.c:132-165 | a new buffer satisfies what the theorems on runs start from |
| `Aubuf.ReadsOnceFilled` | rem/aubuf/aubuf.c:292-295 | in every run samples are read only once the bytes that came since the buffer began to fill reach the wished size, less than one packet excepted |
| `AubufHeard.StartsFilled` | rem/aubuf/aubuf.c:132-165 | a new buffer satisfies what the next theorem starts from |
| `AubufHeard.FillsInTime` | rem/aubuf/aubuf.c:292-295 | in every run, once the bytes that came since the buffer began to fill reach the wished size, it waits for less than a packet more |
| `AubufHeard.WaitEnds` | rem/aubuf/aubuf.c:444-449 | while less than a packet is waited for, each read takes its own size off that and nothing out of the buffer |
| `AubufHeard.NothingHeard` | rem/aubuf/aubuf.c:374-420 | while the buffer fills up the caller's array is silence; when jitter is too low it is left as it was |
| `AubufHeard.HeardExactly` | rem/aubuf/aubuf.c:374-452 | otherwise each sample of the array: the one ready at its place, or silence if the buffer held too little, or what was there before |
| `AubufHeard.HeardTwice` | rem/aubuf/aubuf.c:432-440 | on high jitter the second of two reads lies over the first |
| `AubufHeard.DropExactly` | rem/aubuf/aubuf.c:423-430 | a first read drops as few frames as bring the buffer down to the wished size |
| `AubufHeard.SilentExactly` | rem/aubuf/aubuf.c:404-434 | samples missing in a read are silence, whatever the array held, if and only if the buffer held too little before old frames were dropped or still has enough afterwards |
| `AubufHeard.StaleSample` | rem/aubuf/aubuf.c:404-434 | a first read of four bytes that gets three and leaves the fourth as it was |
| `AubufHeard.StaleReached` | rem/aubuf/aubuf.c:270-452 | a new buffer gets there by two packets and one read |
| `AubufHeard.Counted` | rem/aubuf/aubuf.c:302-408 | overruns count the packets that were too much, underruns the reads there was too little for |
| `AubufHeard.EndStays` | rem/aubuf/aubuf.c:104-111 | a frame read in part ends when it did, to the microsecond, if its time stamp moves at all |
| `Aubuf.InsertAtTail` | rem/aubuf/aubuf.c:251-258 | a packet that starts no earlier than all frames end goes to the tail of the list |
| `Aubuf.TakeOrdered` | rem/aubuf/aubuf.c:104-111 | advancing the time stamp of a partly read frame never moves it past its end |
| `Aubuf.FirstInFirstOut` | rem/aubuf/aubuf.c:270-521 | with packets in order the bytes gone are exactly the first ones sent in the order sent: none twice, none overtaken |
| `Aubuf.UnstampedInOrder` | rem/aubuf/aubuf.c:297-300 | packets without time stamps are stamped so that they are always in order |
| `AubufLimit.InsertPlace` | src/list/list.c:229-250 | a new frame goes behind all frames up to the last that is not later, at the head exactly if all are later |
| `AubufLimit.AppendSize` | rem/aubuf/aubuf.c:302-314 | over the limit the head goes, which is the packet itself unless it went behind another |
| `AubufLimit.LimitExactly` | rem/aubuf/aubuf.c:302-314 | from any state less than p bytes above the limit, with packets of at most p bytes, every state of the run is so if and only if no packet put behind the head finds the size, with it, p bytes and the head's length above the limit |
| `AubufLimit.BelowLimit` | rem/aubuf/aubuf.c:302-314 | with packets of p bytes, none of them put before a partly read head, that never happens, so the buffer never holds max + p bytes |
| `AubufLimit.InOrderSpares` | rem/aubuf/aubuf.c:251-258 | packets in order are never put before a partly read head |
| `AubufLimit.AnyRunBounded` | rem/aubuf/aubuf.c:302-314 | whatever the time stamps, with packets of lo to hi bytes a limited buffer never holds more than max - lo + 1 frames, nor more than hi times as many bytes |
| `AubufLimit.StartsWithin` | rem/aubuf/aubuf.c:132-165 | a new buffer satisfies what the theorems on the limit start from |
| `AubufLimit.OutOfOrderGrows` | rem/aubuf/aubuf.c:302-314 | a run of out-of-order packets of 4 bytes that takes a buffer with a limit of 6 to 12 bytes, all that the bound for any run allows |
| `AubufLimit.StartIsFresh` | rem/aubuf/aubuf.c:132-165 | a new buffer with a limit of six and no wished size is where that run starts |
| `AubufLimit.OutOfOrderOverfills` | rem/aubuf/aubuf.c:302-314 | in that run a packet put behind the head finds the size too large |
| `AubufBuffer.Buffer.constructor` | rem/aubuf/aubuf.c:132-165 | a new buffer is empty and has to fill up to the wished size |
| `AubufBuffer.Buffer.InsertSorted` | src/list/list.c:229-250 | the search from the tail inserts behind the last frame that is not later |
| `AubufBuffer.Buffer.AppendAuframe` | rem/aubuf/aubuf.c:270-318 | the new state is that of the functional append; no counter underflows |
| `AubufBuffer.Buffer.ReadFrames` | rem/aubuf/aubuf.c:77-120 | the frame loop fills the caller's array with the front of the queue and moves the last frame's time stamp if the first frame has a rate |
| `AubufBuffer.Buffer.DropOld` | rem/aubuf/aubuf.c:423-430 | the drop loop ends, since a size above the wish means there is a frame to drop |
| `AubufBuffer.Buffer.ReadAuframe` | rem/aubuf/aubuf.c:374-452 | state and sample array are those of the functional read, silence included |
| `AubufBuffer.Buffer.Clear` | rem/aubuf/aubuf.c:505-521 | a flush empties the list and resets sizes |
| `AubufBuffer.Buffer.Resize` | rem/aubuf/aubuf.c:235-248 | a resize sets both sizes and flushes |
| `Fir.BlocksDoNotMatter` | rem/fir/fir.c:39-67 | the convolution of a stream does not depend on how it is cut into blocks |
| `Fir.Saturates` | rem/fir/fir.c:60-65 | clamping the sum before the shift saturates the shifted sum to sixteen bits |
| `Fir.RingWrite` | rem/fir/fir.c:55-57 | writing a sample at the masked index keeps each slot holding the newest sample of its position |
| `Fir.RingRead` | rem/fir/fir.c:57-58 | the slot d back from the newest holds the sample d back, or silence before the beginning |
| `Fir.Slot` | rem/fir/fir.c:55-58 | masking the 32-bit index, wrapped or not, gives the slot of the true sample number |
| `Fir.Filter.Reset` | rem/fir/fir.c:17-23 | the history is silence for any number of slots |
| `Fir.Filter.Run` | rem/fir/fir.c:39-67 | in place or not, the output is the clamped sum of what each tap finds in the ring over everything filtered so far, which below 2^32 for channels times taps is the direct convolution; nothing happens unless channels times taps, in 32 bits, is a power of two up to 256 |
| `Fir.RingConvolves` | rem/fir/fir.c:42-58 | the taps of a ring in use reach back as those of the convolution if and only if channels times taps is below 2^32 |
| `Fir.OutputConvolves` | rem/fir/fir.c:42-65 | for settings that are not turned down, the output is the clamped convolution for all taps and input if and only if channels times taps is below 2^32 |
| `Fir.WrappedRing` | rem/fir/fir.c:42-65 | with 0x80000001 channels and two taps the filter runs on a ring of two slots, and the second output sample for the input 2, 0 differs from the convolution's |
| `Resamp.DownFrom` | rem/auresamp/resamp.c:106-161 | output frame f of a decimation is made from input frame f * ratio |
| `Resamp.UpLength` | rem/auresamp/resamp.c:311-319 | repeating writes exactly the number of samples reported |
| `Resamp.DownLength` | rem/auresamp/resamp.c:325-336 | dropping writes exactly the number of samples reported |
| `Resamp.UpFrom` | rem/auresamp/resamp.c:36-103 | input frame f fills the output from its own block of frames on |
| `Resamp.UpAt` | rem/auresamp/resamp.c:36-103 | each of the `ratio` output frames of a block is made from that block's input frame |
| `Resamp.DownAt` | rem/auresamp/resamp.c:106-161 | the samples of output frame f are those made from input frame f * ratio |
| `Resamp.FrameMixes` | rem/auresamp/resamp.c:36-161 | two channels mixed into one stay within sixteen bits and within one of their mean; one channel goes to both sides |
| `Resamp.Downsample` | rem/auresamp/resamp.c:106-161 | the four decimation loops, also in place over their input, give the out-of-place result and touch nothing beyond it |
| `Resamp.Upsample` | rem/auresamp/resamp.c:36-103 | the four repetition loops give each frame `ratio` times and touch nothing beyond |
| `Auresamp.Resampler.Setup` | rem/auresamp/resamp.c:192-285 | errors for zero, non-multiple and unsupported settings; otherwise ratio, filter and handlers match, and the filter keeps its past only for an unchanged stream |
| `Auresamp.CutoffSuits` | rem/auresamp/resamp.c:13-285 | by the cutoffs the tables are documented for, the filter chosen cuts off at or below half the lower rate if and only if the rates are at most six to one |
| `Auresamp.Resampler.Resample` | rem/auresamp/resamp.c:301-340 | over all blocks fed, repeating then filtering or filtering then dropping; the count reported is the number written; ENOMEM leaves everything unchanged |
| `Vidmix.CalcRows` | rem/vidmix/vidmix.c:177-184 | the loop finds the smallest square grid |
| `Vidmix.EvenApart` | rem/vidconv/vconv.c:742-760 | rounding both rectangles down to even edges keeps them apart |
| `Vidmix.FitInside` | rem/vidconv/vconv.c:797-814 | for every positive ratio the fitted rectangle lies inside its tile |
| `VidmixLayout.FitExactly` | rem/vidconv/vconv.c:797-814 | the fitted picture is the largest of the source's ratio, to the pixel, in the middle of its tile: it touches two opposite sides and its margins differ by at most one |
| `VidmixLayout.EvenExactly` | rem/vidconv/vconv.c:742-760 | rounding moves no edge by more than a pixel and leaves only even numbers |
| `Vidmix.TilesKeepApart` | rem/vidmix/vidmix.c:129-148 | without a focus the tiles of distinct indexes are apart, in strips and in grids |
| `Vidmix.SidesApart` | rem/vidmix/vidmix.c:100-128 | the tiles beside a focus are apart, down the edge, along the bottom and at the corner |
| `Vidmix.FocusApart` | rem/vidmix/vidmix.c:100-128 | the picture in focus stays clear of all of them, for every frame size |
| `VidmixLayout.GridExactly` | rem/vidmix/vidmix.c:129-148 | one source fills the frame, two or three stand side by side, more fill the smallest square grid in reading order; tiles use up the frame but for fewer pixels than there are tiles in a row |
| `VidmixLayout.FocusExactly` | rem/vidmix/vidmix.c:100-128 | a focus and a tile beside it use up the frame but for one pixel at most |
| `VidmixLayout.SidesExactly` | rem/vidmix/vidmix.c:100-128 | the tiles beside it run down the right edge and then along the bottom to the left corner, each next to the one before |
| `VidmixLayout.SideExactly` | rem/vidmix/vidmix.c:100-104 | there are just enough of them for the sources shown, and at least three, or six, on a side |
| `Vidmix.DrawnInside` | rem/vidmix/vidmix.c:91-174 | a source with a slot is drawn inside the frame, so the converter's bounds check never fires |
| `Vidmix.DrawnApart` | rem/vidmix/vidmix.c:187-268 | for all frame sizes, source lists and views, what is drawn for two sources never overlaps, a focus that does not fill the frame included |
| `VidmixLayout.DrawnExactly` | rem/vidmix/vidmix.c:187-268 | if there is room, a source is drawn exactly if it has a picture and is not the viewer without a self view, hidden content, or the focus that fills the frame |
| `VidmixLayout.DrawnShape` | rem/vidmix/vidmix.c:91-174 | what is drawn has the source's shape: fitted into its tile, or cut to it where sources stand side by side |
| `Vidmix.RoomExactly` | rem/vidmix/vidmix.c:91-151 | every source that has to be placed gets a slot if and only if there is no focus, the focus is shown, the number of sources shown is odd or there are few |
| `Vidmix.LastHasNone` | rem/vidmix/vidmix.c:100-128 | without room the last source that needs a tile beside the focus has none |
| `Vidmix.SixthIsLost` | rem/vidmix/vidmix.c:100-128 | of six sources with a focus on one that is not there, the sixth has no slot, in every frame |
| `Vidmix.MixFrame` | rem/vidmix/vidmix.c:219-257 | the counting and drawing passes give each source the rectangle of its slot, and a full focus is drawn behind them |

## Left out

- Allocation failure, reference counts, real sockets, timers, threads and locks.
- AV1: the OBU extension header, which the reader refuses.
- Work pool: the timer that wakes workers again or warns that all are busy; submitting or cancelling once shutdown has begun.
- DNS: resource records and message headers, which add one field list per type; text after a NUL byte inside a label; encoding anywhere but at the end of the buffer.
- H264.Packetize: what the source does after a length of minus one; the error code collected from the packet handler.
- H.264 parameter sets, NAL unit names, key frame tests and the unused FU header encoder: tables and shallow parsers.
- BfcpBuffer.AttrsEncode: absent values and encode handlers in the argument list, which are skipped or called there.
- BFCP text attributes are byte strings; the source cuts them at a NUL byte.
- BFCP server transactions and the transport (`src/bfcp/conn.c`).
- HTTP headers, connection reuse, request bodies and the server; a body handed to a data handler instead of the buffer.
- DdReader.Decode: what is overwritten when a value is stored outside its table; the shift by 32 for 32 decode targets.
- Audio buffer: what the jitter statistics compute (their advice is an input), the time stamp and format reported with a read, a division by the rate of a frame that has none, wrap-around of 64-bit time stamps.
- Fir.Filter.Run: more than 2^32 taps, for which the source's tap counter wraps.
- Resampler: the frequency response of the filters; output and input arrays that overlap partly.
- Vidmix.Tile: products of frame size and tile count beyond 32 bits.
- Vidmix: pixel values, the choice of the part of a source shown in a strip, and the drawing threads.
