# Verified model of the Xiomas and Nephex telemetry relays

`xiomas_export` takes imagery packets from an instrument over TCP, logs them, cuts them into fragments of at most 956
bytes and passes these on to tm_ip_export through a 270000-byte circular buffer and a 2000-byte acknowledgement window.
A second receiver takes status packets over UDP and controls their rate. `nephex_export` frames the packets of another
instrument, logs all of them and forwards every d-th packet of each type under the same kind of window;
`nephex_emulator` turns packet timestamps into a time base. This project models those state machines in Dafny, with the
code's loops, array indices, 32-bit arithmetic and branches as they are written, and proves what they promise.

`dafny verify dfyconfig.toml` checks everything.

## How it is built

| file | content |
|---|---|
| `Bytes.dfy`, `Serio.dfy` | octets and words; serio packets, their reader, and the header loop of both exporters |
| `HarvardHeader.dfy` | the 16-byte packet header: fill, check byte, validation |
| `CircularBuffer.dfy`, `Wrap.dfy` | the circular buffer as a value, and when it is a queue; a run of the exporter that breaks it |
| `TcpExport.dfy`, `TcpExporter.dfy`, `Window.dfy` | the exporter: its meaning over runs; the class with the code's loops; the exact window bound |
| `PacketStream.dfy`, `ReceiverProgress.dfy`, `TcpReceiver.dfy` | the TCP receiver: what a stream means; the loop invariant; the class |
| `Link.dfy`, `Admission.dfy`, `Pipeline.dfy`, `Session.dfy` | receiver and exporter together: admission, end-to-end results, and a driver for the two classes |
| `UdpReceiver.dfy` | CTS and NCTS rate control |
| `NephexStream.dfy`, `Decimation.dfy`, `NephexRelay.dfy`, `NephexReceiver.dfy`, `NephexSession.dfy` | Nephex framing, decimation, relay, the classes, and a driver for them |
| `TimeBase.dfy` | the emulator's time base |

A class is proved against functions on values (`State()`, `Link()`, `Relay()`), and the results over all runs are lemmas
about those functions. Drivers bind the two together: `Pipeline.EndToEnd` holds for every sequence of reads and
acknowledgements, and `Session.Serve` shows that the classes, driven by such a sequence, do what it says;
`NephexSession.Serve` and `UdpReceiver.Serve` do the same for the other two receivers. Whatever goes out is also read
back by an independent reader: serio packets by one that checks each header against its payload, packet headers on
their bytes and against headers on record, flags by a peer that looks at the bytes it is sent.

## What surrounds the code

* `obuf_empty()` is an arbitrary function of how often it has been asked; `iwrite` appends to `sent`.
* Acknowledgements are events with arbitrary numbers, at any time between reads.
* The serio header (`serio_pkt_hdr`) belongs to a library that is not part of this model. Its layout and its CRC are
  parameters: any header of at most 248 bytes whose first byte is the check byte and which holds the payload length and
  the payload's CRC, and any 16-bit function of the payload as CRC.
* `protocol_input` is called with `cp == 0` and with the bytes that earlier calls did not consume in front of the new
  ones; `not_found` that finds nothing passes over everything. For Xiomas the results hold for
  reads of any size, whether or not the buffer has room; for Nephex a read is of any size the 50000-byte buffer has
  room for.
* The Nephex exporter's socket gives one answer while one packet is handled, so that the answer `ok_to_transmit` was
  asked under is the one `forward_packet` asserts again; between packets it is arbitrary.
* The UDP reply socket gives one answer (`ready`) while one datagram is handled; between datagrams it is arbitrary.
* `client`, which the constructor of `xiomas_tcp_export` leaves unset, starts as null.

## Where the code differs from its intent

The code is followed; each difference is stated by a lemma that says exactly when it matters.

* `circ_commit` advances the tail by the length of the first piece after copying the second
  (Xiomas/xiomas_export.cc:174). The buffer is a queue over a run exactly when every commit either stays before the end
  of the array or reaches past it by exactly as much as was left (`CircularBuffer.RefinesQueueExactly`). The exporter
  gets there with fragments of 956 bytes: `Wrap.AdmittedPacketBreaks` gives two packets, each admitted, the second of
  which is corrupted. For an admitted packet this is the only thing that can go wrong
  (`Admission.ReservedIsFaithfulExactly`). A connection that opens on an empty buffer never gets there, because an
  empty buffer restarts at index 0 and an accepted packet always fits: `Pipeline.EndToEnd` needs no condition on
  wrapping.
* `circ_head_bytes` subtracts the wrong way round (Xiomas/xiomas_export.h:72-73) and wraps in 32 bits. No caller can tell
  (`CircularBuffer.HeadBytesSuffice`).
* The receiver never leaves `xtr_mid_pkt`: it takes one packet from a connection (`PacketStream.OnlyOnePacket`).
* A receiver that waits for the rest of a first fragment does not drop what it has passed over
  (Xiomas/xiomas_export.cc:361-362) and scans it again. This changes neither fragments nor phase, but it changes two
  other things. `bytes_discarding` counts those bytes twice: it is right if and only if the bytes counted again are a
  multiple of 2^32 (`TcpReceiver.DiscardCountExactly`), and two reads suffice to make it wrong
  (`TcpReceiver.HeldBytesAreCountedTwice`). And it does not always leave room in the 50000-byte buffer: fewer than 956
  bytes, or fewer than 50000, are left after a read exactly when fewer lie behind the end of a complete packet and, if a
  header waits for its first fragment, fewer were offered to the read (`TcpReceiver.Receiver.ProtocolInput`). One read
  can fill the buffer for good (`TcpReceiver.OneReadFillsTheBuffer`), and so can what follows a complete packet
  (`PacketStream.NothingTakenAfterPacket`).
* A receiver that registers for its callback when the buffer is empty already is not called back at once but by the next
  acknowledgement (`Pipeline.CallbackOnlyByAcknowledgement`, `Pipeline.CallbackComes`).
* `xhgGetPacketLength` wraps. A header that announces a length of zero is acceptable and stops the receiver for good
  (`PacketStream.EmptyHeaderIsAcceptable`, `PacketStream.EmptyHeaderStops`, `PacketStream.ActedOnUnlessEmpty`).
* The emulator's assertion about milliseconds fails exactly on a stamp of a later second whose milliseconds are 1000 or
  more below those of the latest stamp before it (`TimeBase.AbortsExactly`). With milliseconds below 1000 it never does
  (`TimeBase.ClockIsExact`).
* The bound of 11 unrequested status packets over UDP depends on the reply path. The count passes 11 exactly when a
  status packet without a request that is answered arrives at a count of 11 (`UdpReceiver.CountPassesElevenExactly`). A
  peer that honours NCTS never sends it while none is lost (`UdpReceiver.ObedientPeerIsBounded`), and does after one loss
  (`UdpReceiver.LostNctsBreaksTheBound`).

## Model

| member | source | states |
|---|---|---|
| `Pipeline.EndToEnd` | Xiomas/xiomas_export.cc:306-430 | For every sequence of reads and acknowledgements and every socket behaviour, what was written plus what waits is the serialized complete fragments of the first acceptable packet, in order and nothing else; the window is kept; exactly once the packet is complete its callback is due or given, and given only with the whole packet written |
| `Pipeline.CallbackComes` | Xiomas/xiomas_export.cc:112-119 | After any acknowledgement the receiver of a complete packet has had its callback if and only if the buffer is empty |
| `Pipeline.CallbackOnlyByAcknowledgement` | Xiomas/xiomas_export.cc:194-200 | No read makes the callback, in any state of a connection: registering does not look whether the buffer is empty already |
| `Pipeline.PacketRoundTrip` | Xiomas/xiomas_export.cc:26-47 | Once a packet has arrived and the buffer has drained, a reader that cuts the written bytes by the serio length fields, and checks every header and the payload behind it, accepts all of them and gets the packet back, in ceil(length/956) payloads all full but the last |
| `Pipeline.ReadBoundariesDoNotMatter` | Xiomas/xiomas_export.cc:306-430 | However the bytes between two acknowledgements are cut into reads, stream, admission decision and exporter end in the state after a single read |
| `Pipeline.TwoReadsAreOne` | Xiomas/xiomas_export.cc:306-430 | Two reads in a row lead to the same state as one read of both |
| `Pipeline.StaysIntact` | Xiomas/xiomas_export.cc:26-200 | The connection invariant holds after every event: intact prefix of fragments in the buffer, room for the rest before the array's end, callback state |
| `Pipeline.FragmentsFlow` | Xiomas/xiomas_export.cc:416-425 | The fragments of an admitted packet enter the buffer one behind the other, intact, whatever drains in between |
| `Pipeline.AcceptedPacketFitsEmptyBuffer` | Xiomas/xiomas_export.cc:390-400 | Any packet the receiver accepts is admitted to an empty buffer, with any header of at most 248 bytes |
| `Pipeline.SerialSizeIsExact` | Xiomas/xiomas_export.cc:394-398 | The size that is compared with the free space is exactly the size of the serio packets of all fragments |
| `Pipeline.SizedOccupy` | Xiomas/xiomas_export.cc:390-424 | Fragments sent so far occupy exactly their share of the reserved size; the rest stays reserved |
| `Session.Serve` | Xiomas/xiomas_export.cc:306-430 | The two classes, driven by any sequence of reads and acknowledgements, end in the state that the end-to-end result describes |
| `Session.Handle` | Xiomas/xiomas_export.cc:306-430 | One read or acknowledgement takes the objects through exactly one step of the connection model |
| `CircularBuffer.RefinesQueueExactly` | Xiomas/xiomas_export.cc:143-192 | Over every run of commits and removals the buffer equals a FIFO queue after each step if and only if each commit fits and wraps harmlessly |
| `CircularBuffer.CommitAppendsWhatFits` | Xiomas/xiomas_export.cc:143-177 | A commit appends the prefix of the data that fits, in order, if and only if its wrap is harmless |
| `CircularBuffer.CommitAppendsExactly` | Xiomas/xiomas_export.cc:143-177 | A commit appends all of its data if and only if they fit and the wrap is harmless |
| `CircularBuffer.CommitWithWrap` | Xiomas/xiomas_export.cc:170-175 | Past the end of the array a commit is right if and only if both pieces are equally long |
| `CircularBuffer.CommitLosesBytesOnWrap` | Xiomas/xiomas_export.cc:170-175 | With one byte before the end, three committed bytes become two |
| `Wrap.AdmittedPacketBreaks` | Xiomas/xiomas_export.cc:26-47 | From a fresh exporter, with fragments of 956 bytes and an 8-byte header: two packets are admitted, and some commit of the second does not append what it is given |
| `CircularBuffer.HeadBytesSuffice` | Xiomas/xiomas_export.h:69-75 | Asked for no more than the buffer holds, the written head count and the documented one select the same bytes; as values they differ exactly when the data do not wrap |
| `CircularBuffer.DropRemovesTheFront` | Xiomas/xiomas_export.h:86-95 | Consuming removes exactly the first bytes of the queue, empty coding included |
| `CircularBuffer.Length` | Xiomas/xiomas_export.cc:136-141 | `circ_length` is the length of the queue's content, for the empty and the full coding too |
| `CircularBuffer.LinearCommit` | Xiomas/xiomas_export.cc:143-177 | With room reserved before the end of the array a commit appends exactly and keeps the rest of the reservation |
| `TcpExporter.Exporter.constructor` | Xiomas/xiomas_export.cc:15-24 | A new exporter has an empty buffer and nothing outstanding |
| `TcpExporter.Exporter.CircLength` | Xiomas/xiomas_export.cc:136-141 | Returns the number of bytes in the queue |
| `TcpExporter.Exporter.CircSpace` | Xiomas/xiomas_export.cc:128-131 | Returns how many bytes the queue still takes |
| `TcpExporter.Exporter.CircCommit` | Xiomas/xiomas_export.cc:143-177 | The two copies on the array are the commit of the value model; both assertions in the code hold in every state |
| `TcpExporter.Exporter.CircConsume` | Xiomas/xiomas_export.h:86-95 | The span leaves the queue and is counted as outstanding; consuming nothing from a full buffer would empty it |
| `TcpExporter.Exporter.CircTransmit` | Xiomas/xiomas_export.cc:179-192 | Writes the first n bytes of the queue, in order, in at most two writes, and removes them; its assertion holds |
| `TcpExporter.Exporter.ProcessQueue` | Xiomas/xiomas_export.cc:98-123 | Terminates, by the length of the queue, in the state of the value model |
| `TcpExporter.Exporter.ForwardPacket` | Xiomas/xiomas_export.cc:26-47 | Commits header and payload and drains |
| `TcpExporter.Exporter.Acknowledged` | Xiomas/xiomas_export.cc:74-83 | Reduces the outstanding count, to zero if the acknowledgement exceeds it, and drains |
| `TcpExporter.Exporter.RequestAck` | Xiomas/xiomas_export.cc:194-200 | Registers the receiver, exchanging the reference held before |
| `TcpExporter.AtMostTwoWrites` | Xiomas/xiomas_export.cc:179-192 | Any part of the queue from its head on lies in at most two contiguous spans |
| `TcpExporter.Turn` | Xiomas/xiomas_export.cc:181-191 | Writing the span at the head leaves exactly the rest of the request to do, with one write fewer |
| `TcpExport.ProcessQueueDrains` | Xiomas/xiomas_export.cc:98-123 | Draining moves bytes in order and counts them; overruns the window by at most one write; stops only when the buffer is empty, the window is closed or the socket busy; answers the receiver if and only if the buffer is empty |
| `TcpExport.WindowSafety` | Xiomas/xiomas_export.h:112 | In every reachable state at most 1999 + 956 + header bytes are outstanding, for any backlog, acknowledgements and socket |
| `Window.WindowBoundIsReached` | Xiomas/xiomas_export.cc:98-123 | A run of full 956-byte fragments and one acknowledgement reaches that bound with any header layout, so it cannot be lowered |
| `TcpExport.WrittenIsCreditedPlusOutstanding` | Xiomas/xiomas_export.cc:74-83 | Over every run bytes written are bytes credited plus bytes outstanding |
| `TcpExport.CreditIsAckTotalExactly` | Xiomas/xiomas_export.cc:75-79 | The credit is the sum of the acknowledgements if and only if none exceeded the outstanding count |
| `TcpExport.WrittenThenQueuedIsCommitted` | Xiomas/xiomas_export.cc:26-47 | Over every run whose commits are harmless, written bytes then waiting bytes are the serio packets of all forwarded fragments in order |
| `TcpExport.CleanExactlyWhenFaithful` | Xiomas/xiomas_export.cc:42-46 | Over every run every commit appends what it is given if and only if every commit fits and wraps harmlessly |
| `TcpExport.CallbacksMatchRequests` | Xiomas/xiomas_export.cc:112-119 | Each request is answered at most once, and one reference is held exactly while a receiver waits |
| `TcpExport.CallbackMeansWritten` | Xiomas/xiomas_export.cc:112-119 | A callback comes only when the buffer is empty and all that ever entered it has been written, in every run; if the commits were clean, this is every serio packet of every forwarded fragment |
| `Admission.ReservationHolds` | Xiomas/xiomas_export.cc:390-424 | Once a packet is admitted, to a buffer in any state, its reservation holds to its end between acknowledgements in any pattern, and no commit is cut short, if what is copied wraps harmlessly |
| `Admission.ReservedIsFaithfulExactly` | Xiomas/xiomas_export.cc:390-424 | For an admitted packet every commit of a run appends all it is given if and only if what is copied always wraps harmlessly; the room is never short |
| `Admission.AllOrNothing` | Xiomas/xiomas_export.cc:390-424 | The packet is admitted if and only if the serio packets of its fragments fit the free space. Admitted: its commits append what they are given if and only if what is copied wraps harmlessly, and then the fragments enter the buffer whole and in order. Refused: the exporter is untouched |
| `Link.RefusedPacketLeavesNothing` | Xiomas/xiomas_export.cc:418-419 | None of a packet that was not admitted enters the buffer |
| `PacketStream.FirstHeader` | Xiomas/xiomas_export.cc:316-359 | The smallest offset of an acceptable header |
| `PacketStream.AcceptableExactly` | Xiomas/xiomas_export.cc:344-359 | A header is acceptable if and only if it is what filling writes for legal fields and announces at most 214183 bytes, in 32-bit arithmetic |
| `PacketStream.SkipDead` | Xiomas/xiomas_export.cc:316-351 | Passing over bytes that are not '$' and rejected candidates never passes over an acceptable header |
| `PacketStream.ActionsGrow` | Xiomas/xiomas_export.cc:306-430 | What the receiver has done on a stream is never undone or reordered by later bytes |
| `PacketStream.NewActionsAreThese` | Xiomas/xiomas_export.cc:363-425 | One read accepts, cuts and finishes a packet, in this order and each exactly when it is due |
| `PacketStream.FragmentsOfWholePacket` | Xiomas/xiomas_export.cc:298-304 | The fragments of a complete packet join to the packet, are ceil(length/956) in number, and all but the last are full |
| `PacketStream.CutAfterCovered` | Xiomas/xiomas_export.cc:407-424 | Cutting what follows some complete fragments gives the remaining fragments of the whole |
| `PacketStream.OnlyOnePacket` | Xiomas/xiomas_export.cc:407-426 | After the last fragment nothing more is done on the connection, whatever arrives |
| `PacketStream.ActedOnUnlessEmpty` | Xiomas/xiomas_export.cc:344-362 | With enough bytes at hand the first acceptable header is acted on if and only if it announces a length other than zero |
| `PacketStream.EmptyHeaderIsAcceptable` | Xiomas/XioHarvGatewayPacket.cpp:134-138 | The length wraps: an acceptable header can announce no bytes |
| `PacketStream.EmptyHeaderStops` | Xiomas/xiomas_export.cc:360-362 | Such a header stops the receiver whatever follows |
| `PacketStream.FullBufferWaits` | Xiomas/xiomas_export.cc:361-362 | 49984 bytes without a start byte and a header that announces 200016 bytes leave all 50000 bytes in the buffer |
| `PacketStream.NothingTakenAfterPacket` | Xiomas/xiomas_export.cc:407-429 | However many bytes arrive behind a complete packet, they all stay in the buffer |
| `ReceiverProgress.SettledIsComplete` | Xiomas/xiomas_export.cc:306-430 | A receiver that waits has done all that its stream asks for, and its phase depends on the stream alone |
| `ReceiverProgress.SettledAgree` | Xiomas/xiomas_export.cc:306-430 | Two receivers that have read the same bytes in whatever pieces agree on position, phase and actions, and in a packet on what remains of it and all the rest |
| `ReceiverProgress.LittleIsLeft` | Xiomas/xiomas_export.cc:407-429 | At most 955 bytes are left beyond the parse position if and only if no more follow a complete packet or start with a header that announces no bytes |
| `ReceiverProgress.LeftoverExactly` | Xiomas/xiomas_export.cc:316-430 | Fewer than `limit` bytes stay in the buffer after a call, for any limit from 956 on, if and only if fewer lie behind a complete packet and fewer were offered to a call that ends at a waiting header |
| `ReceiverProgress.PassedIsPlainAndTurnedDown` | Xiomas/xiomas_export.cc:316-359 | All that a waiting receiver has passed over is bytes other than the start byte, and complete headers that were turned down |
| `TcpReceiver.Receiver.ProtocolInput` | Xiomas/xiomas_export.cc:306-430 | Terminates; however the stream was cut, the actions so far are those of the whole stream and the exporter saw exactly the new ones; exactly when fewer than 956, and fewer than 50000, bytes stay in the buffer; how much is counted as discarded again |
| `TcpReceiver.OneReadFillsTheBuffer` | Xiomas/xiomas_export.cc:361-362 | The receiver after such a read: it waits for 956 bytes behind the header and its buffer is full |
| `TcpReceiver.DiscardCountExactly` | Xiomas/xiomas_export.cc:316-362 | Bytes passed over are bytes counted as discarded plus candidates turned down, modulo 2^32, if and only if what was counted again is a multiple of 2^32 |
| `TcpReceiver.HeldBytesAreCountedTwice` | Xiomas/xiomas_export.cc:361-362 | Any run of bytes without a start byte, then the beginning of a packet in two reads: all of those bytes but one are counted twice |
| `TcpReceiver.Receiver.SeekStart` | Xiomas/xiomas_export.cc:316-327 | Moves to the next '$' or the end; the discard count grows by what was passed over |
| `TcpReceiver.Receiver.TurnDown` | Xiomas/xiomas_export.cc:345-359 | A rejected candidate is passed over by one byte |
| `TcpReceiver.Receiver.TxmitSize` | Xiomas/xiomas_export.cc:298-304 | The size of the next fragment if it is complete, otherwise 0 |
| `TcpReceiver.Receiver.Admit` | Xiomas/xiomas_export.cc:390-400 | The decision on the packet is that of the value model, which is that all of its serio packets fit the free space |
| `TcpReceiver.Receiver.TakeFragment` | Xiomas/xiomas_export.cc:416-425 | One fragment is cut off and sent if admitted; the last one requests the acknowledgement |
| `Serio.ParseSerialize` | Xiomas/xiomas_export.cc:26-47 | A reader that cuts by the length fields and stops at a header that does not sum to zero, or does not carry the CRC of the payload behind it, accepts every packet and recovers the payloads, for every header layout and CRC |
| `Serio.HeaderDamageIsDetected` | Xiomas/xiomas_export.cc:33-41 | That reader refuses a header with any one byte changed |
| `Serio.PayloadDamageIsDetected` | Xiomas/xiomas_export.cc:33-35 | A header is good for another payload if and only if that has the same CRC |
| `Serio.HeaderSumsToZero` | Xiomas/xiomas_export.cc:33-41 | The bytes of a serio header sum to 0 modulo 256 |
| `Serio.MakeHeader` | Xiomas/xiomas_export.cc:28-41 | The header loop writes that header: length and CRC of the payload, and the check byte |
| `HarvardHeader.FillValidates` | Xiomas/XioHarvGatewayPacket.cpp:255-305 | A filled header is valid if and only if its fields are legal and the length is its own |
| `HarvardHeader.ValidatedIsFilled` | Xiomas/XioHarvGatewayPacket.cpp:255-305 | Every valid header is what filling writes for the fields read from it |
| `HarvardHeader.ValidatesExactly` | Xiomas/XioHarvGatewayPacket.cpp:255-305 | What the validator accepts, on the sixteen bytes alone: start bytes, identifier, source, flags, byte sum 0xFF modulo 256, payload limit, length |
| `HarvardHeader.AcceptedHeaderSum` | Xiomas/XioHarvGatewayPacket.cpp:66-78 | The bytes of an accepted header sum to 0xFF modulo 256 |
| `HarvardHeader.FilledHeaderSum` | Xiomas/XioHarvGatewayPacket.cpp:66-78 | So do those of every filled header |
| `HarvardHeader.RecordedHeaders` | Xiomas/test/xiomas_export.log:4-18 | Filling gives the bytes of headers on record: a request, the CTS that answers it, a status packet, an NCTS |
| `HarvardHeader.LegalFlagsAreBits` | Xiomas/XioHarvGatewayPacket.h:104-117 | A flag byte is legal if and only if it is a bitmap of the four flags, and it requests if and only if the fourth is set |
| `HarvardHeader.FieldsReadBack` | Xiomas/XioHarvGatewayPacket.cpp:119-175 | The fields written are the fields read |
| `HarvardHeader.SingleByteDamageIsDetected` | Xiomas/XioHarvGatewayPacket.cpp:255-305 | Changing any one byte of a valid header makes it invalid for every length |
| `HarvardHeader.LrcIsDetermined` | Xiomas/XioHarvGatewayPacket.cpp:66-78 | Exactly one check byte makes a header check out |
| `HarvardHeader.Value32OfBytes32` | Xiomas/XioHarvGatewayPacket.cpp:164-226 | Decoding undoes encoding of a little-endian field |
| `HarvardHeader.Bytes32OfValue32` | Xiomas/XioHarvGatewayPacket.cpp:164-226 | Encoding undoes decoding |
| `HarvardHeader.CalculateLRC` | Xiomas/XioHarvGatewayPacket.cpp:66-78 | The loop computes the check byte of the value model, the complement of the eight-bit sum |
| `HarvardHeader.SetValue32` | Xiomas/XioHarvGatewayPacket.cpp:218-226 | Writes the four bytes in place and no others |
| `HarvardHeader.FillHeader` | Xiomas/XioHarvGatewayPacket.cpp:89-108 | Leaves the filled header in the array and returns its packet length |
| `UdpReceiver.ObedientPeerIsBounded` | Xiomas/xiomas_export.cc:555-578 | Whatever a peer sends that goes by the flag bytes it is sent, the count of unrequested status packets never passes 11, unless the reply socket fails when a status packet arrives at a count of ten or more |
| `UdpReceiver.CountPassesElevenExactly` | Xiomas/xiomas_export.cc:555-578 | With any peer and any reply path the count passes 11 in a run if and only if some status packet, with no request in it that is answered, arrives at a count of 11 |
| `UdpReceiver.LostNctsBreaksTheBound` | Xiomas/xiomas_export.cc:587-604 | From the start, a peer that goes by every header it is sent takes the count to 12 when only the first NCTS is lost |
| `UdpReceiver.HeardAsMeant` | Xiomas/xiomas_export.cc:555-604 | A peer that reads bit 0x10 and bit 0x20 of byte 7 of the headers sent holds off exactly after NCTS and goes on exactly after CTS |
| `UdpReceiver.ClassifiedExactly` | Xiomas/xiomas_export.cc:539-571 | A datagram is taken for a status packet, or a control message, if and only if it is the bytes of a legal packet from source 2 with identifier 3, or 1, and its own length; it requests if and only if flag 0x40 is set |
| `UdpReceiver.CountIsBalance` | Xiomas/xiomas_export.cc:555-574 | Over every run the count is that of the status packets less that of the requests that came while the reply socket was ready and the count not zero, modulo 256 |
| `UdpReceiver.BlocksCountReplies` | Xiomas/xiomas_export.cc:587-604 | Over every run the block count rises by one for each header sent and for each NCTS lost |
| `UdpReceiver.RepliesAreNumbered` | Xiomas/xiomas_export.cc:587-604 | With the reply socket always ready the headers sent carry consecutive block counts modulo 2^32 |
| `UdpReceiver.Serve` | Xiomas/xiomas_export.cc:523-604 | The class, driven by any datagrams, ends with the count, the headers sent and the packets forwarded that the value model gives |
| `UdpReceiver.ExchangeIsPeriodic` | Xiomas/xiomas_export.cc:555-604 | With a peer that sends status packets until the bytes it is sent hold it and requests until they release it, the state and the bytes sent after n messages for every n: 11 packets, a header with flag 0x10, 12 requests, a header with flag 0x20, one block count a header modulo 2^32 |
| `UdpReceiver.RequestClearsAtOnce` | Xiomas/test/xiomas_export.log:4-5 | A peer that starts with a request is cleared at once and is then in that cycle |
| `UdpReceiver.RepliesAreValid` | Xiomas/xiomas_export.cc:587-604 | Every reply is a header the validator accepts |
| `UdpReceiver.Receiver.ProtocolInput` | Xiomas/xiomas_export.cc:523-585 | The code on a raw datagram: rejected ones change nothing, the count and the header sent are those of the value model, exactly the status packets are forwarded |
| `UdpReceiver.Receiver.SendFlag` | Xiomas/xiomas_export.cc:587-604 | The block count rises by one and the filled header is sent if the socket is ready |
| `NephexStream.FramesRoundTrip` | Nephex/nephex_export.cc:192-247 | From whatever packets an instrument writes (type, sequence and length words, then the data) between clean gaps exactly those packets are framed, once each and in order |
| `NephexStream.WellFormedExactly` | Nephex/nephex_export.cc:202-218 | What framing takes for a packet is what an instrument can write, and only that |
| `NephexStream.FramingResumes` | Nephex/nephex_export.cc:192-247 | Framing that goes on from the bytes kept finds the same packets and keeps the same bytes as framing of the whole stream |
| `NephexStream.RestIsABeginning` | Nephex/nephex_export.cc:200-214 | What is kept holds no complete packet: nothing, half a sync, or an incomplete packet |
| `NephexStream.RoomForMore` | Nephex/nephex_export.cc:211-215 | The input buffer has room between calls unless it holds the start of a packet larger than itself |
| `NephexStream.GapIsSkipped` | Nephex/nephex_export.cc:196-200 | A clean gap, which may hold single sync bytes, does not change what is framed |
| `NephexStream.FramingStartsAtFirstSync` | Nephex/nephex_export.cc:196-200 | What is framed depends only on the bytes from the first sync on |
| `NephexStream.FirstSync` | Nephex/nephex_export.cc:196-200 | The smallest offset of a sync |
| `NephexStream.FramingStartsBehindCleanGap` | Nephex/nephex_export.cc:196-247 | A packet behind a gap is where framing starts if and only if the gap is clean, and is then the first packet framed; from any other gap the first frame starts inside the gap |
| `NephexReceiver.Receiver.ProtocolInput` | Nephex/nephex_export.cc:192-247 | However the stream is cut into reads, the log holds exactly its packets and the buffer exactly the kept bytes; the exporter has been offered each new packet once |
| `NephexReceiver.Receiver.TakeFrame` | Nephex/nephex_export.cc:233-244 | A packet is logged, and forwarded if the exporter is clear to send and the table agrees |
| `NephexReceiver.Exporter.ForwardPacket` | Nephex/nephex_export.cc:95-119 | The assertion that the exporter is clear to send holds whenever the receiver forwards; the serio packet is written and counted as outstanding |
| `NephexReceiver.Exporter.Acknowledged` | Nephex/nephex_export.cc:146-154 | Reduces the outstanding count, to zero if the acknowledgement exceeds it |
| `NephexSession.Serve` | Nephex/nephex_export.cc:95-247 | The classes, driven by any reads and acknowledgements from a new connection: the log holds exactly the packets of the stream, a checking reader of what was written gets exactly the chosen ones, written bytes are credited plus outstanding ones, the window is kept |
| `NephexSession.Handle` | Nephex/nephex_export.cc:95-247 | One read or acknowledgement takes the objects through exactly the relay steps for the packets it completes |
| `NephexSession.OfferedIsFramed` | Nephex/nephex_export.cc:192-247 | However the reads cut the stream, what the relay is offered is what is framed in the whole of it |
| `NephexRelay.WindowSafety` | Nephex/nephex_export.cc:95-168 | Over every run at most 1999 bytes and one packet of 50000 bytes with its header are outstanding |
| `NephexRelay.WindowBoundIsReached` | Nephex/nephex_export.h:39 | Two packets that the new table lets through reach that bound, with any header layout |
| `NephexRelay.WrittenIsCreditedPlusOutstanding` | Nephex/nephex_export.cc:95-154 | Over every run bytes written are bytes credited plus the change of the outstanding count, an acknowledgement being worth no more than was outstanding; each packet is handled once |
| `NephexRelay.CreditIsAckTotalExactly` | Nephex/nephex_export.cc:146-154 | The credit is the sum of the acknowledgements if and only if none exceeded the outstanding count |
| `NephexRelay.ReaderGetsTheChosen` | Nephex/nephex_export.cc:95-119 | A reader that checks headers and payloads gets exactly the chosen packets |
| `NephexRelay.ApidOfBuilt` | Nephex/nephex_export.cc:207-208 | The type of a packet is the low ten bits of the type word that the instrument wrote |
| `NephexRelay.WritesTheChosen` | Nephex/nephex_export.cc:233-244 | Over every run exactly the packets that are the first, (d+1)-st, (2d+1)-st ... of their type to find the exporter clear are written, once, intact and in order |
| `Decimation.DecimationIsExact` | Nephex/nephex_export.cc:67-79 | A packet is forwarded if and only if the exporter is clear, its type transmits and the number of earlier such arrivals of its type is a multiple of d |
| `Decimation.ForwardedCount` | Nephex/nephex_export.cc:67-79 | After k clear arrivals of a type ceil(k/d) were forwarded |
| `Decimation.CounterOfEachType` | Nephex/nephex_export.cc:67-79 | Each type's counter depends on its own clear arrivals alone, however the types interleave |
| `Decimation.TransmittedTypes` | Nephex/nephex_export.cc:11-58 | Only fourteen types are ever forwarded, and only laser power packets all of them |
| `Decimation.APid.constructor` | Nephex/nephex_export.cc:11-58 | The table as defined, every counter such that the first packet of a type passes |
| `Decimation.APid.OkToTransmit` | Nephex/nephex_export.cc:67-79 | Verdict and table update on the array are those of the value model |
| `Decimation.APid.GetSize` | Nephex/nephex_export.cc:60-65 | The size a type was defined with, whatever has been forwarded or skipped since; 0 for an undefined type and beyond the table |
| `TimeBase.ClockIsExact` | Nephex/nephex_emulator.cc:69-94 | For any timestamps with milliseconds below 1000, in any order and with repeats, the increments sum to the greatest less the first and the assertion holds |
| `TimeBase.IncrementsTelescope` | Nephex/nephex_emulator.cc:77-94 | For arbitrary timestamps, as long as the assertion holds, the increments sum to the latest less the first |
| `TimeBase.ExaminingAgainAddsNothing` | Nephex/nephex_emulator.cc:102-105 | A packet that is held and examined again adds nothing |
| `TimeBase.AbortsExactly` | Nephex/nephex_emulator.cc:80-83 | For any timestamps the assertion fails on a run if and only if some stamp of a later second has milliseconds 1000 or more below those of the latest stamp before it |
| `TimeBase.OutOfRangeAborts` | Nephex/nephex_emulator.cc:80-83 | It does fail: a timestamp with 1000 milliseconds, then the next second |
| `TimeBase.Ingest.ExaminePacket` | Nephex/nephex_emulator.cc:61-94 | The borrow arithmetic hands `TO.Add` exactly the distance between the stamps, without underflow |

## Left out

- The DAS_IO/monarch library: event loop, sockets, reconnects, loggers, and the parsing inside `not_serio_pkt` are not part of this model; `app_input` appears as its ACK case.
- The value of the CRC: an arbitrary function of the payload, inside the header layout.
- `protocol_timeout`, `reset`, `ack()`'s timer and `main`: plumbing around the state machines.
- The CTS reply to a TCP packet header that carries RTS (Xiomas/xiomas_export.cc:376-379): one `FillHeader` call like the UDP replies, independent of everything else.
- The log file argument of `log_packet` (new, default or current file): it does not affect what is logged.
- `APid::not_reported`: a report-once flag for diagnostics, defined for types up to 151 only.
- `xiomas_udp_export`: a single stop-and-wait flag; status packets handed to it are recorded as forwarded.
- The emulator's framing loop: the same framing as in `NephexStream`; its early returns drop nothing, and whether packets are examined again then depends on the library. `TimeBase` covers any sequence of examined packets, repeats included.
- POPS, BBB, TM and the older codec in Xiomas/save: flat field copying and configuration.
- Admission.ReservationHolds: for a buffer that is not empty the wrap condition on each commit is a premise, because Xiomas/xiomas_export.cc:174 breaks the buffer without it (`Wrap.AdmittedPacketBreaks`); `Admission.ReservedIsFaithfulExactly` is the equivalence.
- TcpExport.WrittenThenQueuedIsCommitted: the wrap condition on each commit is a premise for the same reason; `TcpExport.CleanExactlyWhenFaithful` and `CircularBuffer.RefinesQueueExactly` are the equivalences.
- UdpReceiver.ObedientPeerIsBounded: assumes that no NCTS is lost, which `UdpReceiver.LostNctsBreaksTheBound` shows to be needed; `UdpReceiver.CountPassesElevenExactly` is the equivalence.
