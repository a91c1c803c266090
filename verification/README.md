# RAP-cpp in Dafny

RAP-cpp is a C++ implementation of the Register Access Protocol: a client turns register accesses into command
messages, a server runs them on a register target and answers, and a transport carries the bytes. This project models
the codec, the CRC, the two queues, the client, the server's worker loop and the Wireshark dissector, and proves what
they promise together: what one end reads is what the other end wrote, no thread accepts an answer that is not its own
while the live ids span at most 256, every command runs at most once and in order, and an undisturbed client sees
exactly what the target itself would have returned.

`dafny verify dfyconfig.toml` checks everything.

## How it is built

| file | what it holds |
|---|---|
| `Bytes.dfy` | little-endian integers, and multiplication and division as sums, so that proofs follow element by element |
| `Crc.dfy` | the bit-serial CRC given by the four parameter sets, its register steps as bijections, and parity |
| `CrcDivision.dfy` | the CRC as the remainder of polynomial division over GF(2), for the four parameter sets |
| `Words.dfy`, `WordRegister.dfy` | a CRC register in the high bits of a machine word, and the laws it needs |
| `CrcCheckValues.dfy` | the published check values, by nine digits through that register |
| `Messages.dfy` | configuration, the 7 commands and 15 responses, their fields, frames and wire bytes, truncation |
| `Codec.dfy` | what the decoders accept and return, by positions in the buffer; the exact-inverse theorem |
| `Limits.dfy` | count limits, sizes, and when an encoder succeeds |
| `RoundTrip.dfy` | decode after encode, encode after decode, out-of-range values and counts included |
| `Detection.dfy` | which corruptions both decoders are certain to refuse, and where that guarantee stops |
| `Serdes.dfy` | class `Serdes` as written: loops that grow a buffer and loops that consume a view |
| `Service.dfy` | one command on the target, on the server, and back at the client; the protocol as three functions |
| `TypeBytes.dfy` | the law behind the type bytes, and how the client reads any response by it |
| `System.dfy` | client threads, queues, worker and stop as a step system over bytes, for any protocol; its inductive invariant |
| `Safety.dfy` | acceptance, exactly-once, shutdown, and when the worker can die, over every run |
| `EndToEnd.dfy` | one client thread without timeouts refines the target itself, and every operation can be finished |
| `Transports.dfy` | the queue and transport classes |
| `ServerAdapter.dfy` | the server class and its loop, round by round, with the three looks at the stop token |
| `Client.dfy` | what the client makes of one command and one response, as functions |
| `Exchanges.dfy` | the client and server classes together: an exchange is the command on the target, and the classes take only steps of the step system |
| `Operations.dfy` | what each operation does to the target and returns, argument by argument and value by value |
| `RegisterTarget.dfy` | the client class and its nine operations |
| `Dissector.dfy` | the Wireshark dissector and its agreement with the decoders |

The step system knows of the protocol only three functions: what a command is encoded to, what a round of the server
makes of a buffer, and what a client makes of one (`Service.Protocol`); `Service.Rap` is the instance that all results
about the protocol use. It keeps unbounded ids beside the 8-bit ones on the wire, and histories (what was sent, applied,
consumed, dropped) that only the properties look at. The register target is any function from a state and an operation
to a new state and either the values written into the output span or an exception; it may change state and still
throw. Methods of the classes state their whole effect as a function of the old state, and what the source promises is
proved about those functions.

Assumptions:

- A configuration satisfies the bounds of `Configuration.h:45-63`. They stand bare in a requires-expression there,
  which only checks that they are well formed, so the model states them (`Config.Valid`), with the lower bound 1.
- The CRC library computes the ordinary bit-serial CRC for the parameters it is given.
- Both ends share the configuration and the transport's message size, and `max_message_size >= 32`.
- The server's own receive does not time out (its default timeout is one year).

## What turned out different from what one might expect

- `README.md:16` of RAP-cpp says that CRCs are placeholders. The code computes and checks them, and the model follows the code.
- The count limits use the largest value of `LengthType`, not of the bytes on the wire (`Serdes.h:387`). When the
  length field is narrower than its type, the encoder may accept an array whose count is cut on the wire; the server's
  decoder throws outside any try block and the worker dies. `Safety.SurvivesExactly` shows that the worker survives
  every run if and only if the three limits fit the field, which is so whenever `LengthBytes == sizeof(LengthType)`
  (`Service.FullLengthFits`). Safety and refinement do not depend on that: they are stated for every configuration, or
  for the counts of the commands at hand.
- 8-bit ids keep answers apart while the live ids span at most 256; at 257 a stale response is accepted (`Safety.NoForeignAnswer`,
  `Safety.WindowTight`).
- `seqRead` and `fifoRead` cast the size of the span to `LengthType`. A span whose size does not fit the wire is not
  refused but partly filled: the read fills the span if and only if its size is below `256^LengthBytes`
  (`Exchanges.SeqReadFills`; `Exchanges.PartialRead` has 144 values for a span of 400), and a span of
  `256^sizeof(LengthType)` elements is left untouched (`Exchanges.WrappedReadCopiesNothing`; `RegisterTarget.RapRegisterTarget.SeqRead`
  says element by element what a span holds afterwards).
- The 2 and 3 byte CRCs are shifted high bit first but sent low byte first. The guarantee against bursts as long as
  the CRC therefore holds across the whole frame only for the 1 and 4 byte ones (`Detection.FrameBurstsExactly`);
  within the body, and within the CRC field, it holds for all four.

## Model

| member | source | states |
|---|---|---|
| Codec.DecodeCommandExact | Serdes.h:328-371 | The accepted language of decodeCommand, for every byte string: it returns a command on exactly one buffer, that command's bytes, and only when all its fields fit their widths |
| Codec.DecodeResponseExact | Serdes.h:283-326 | The same for decodeResponse and all fifteen kinds of response |
| Codec.FrameExact | Serdes.h:475-481 | A buffer passes the size and CRC checks with a given header and payload exactly when it is that header, that payload and their CRC |
| Codec.ReadsIffSer | Serdes.h:490-551 | Cutting fields off a buffer in sequence is the exact inverse of writing in-range fields one after the other |
| Codec.CommandPayloadExact | Serdes.h:619-785 | For each of the seven commands, decoding by positions returns it exactly when its type byte matches and its fields fill the payload to the last byte |
| Codec.ResponsePayloadExact | Serdes.h:795-1053 | The same for the responses, whose array acknowledges have no size check up front |
| Codec.CommandRefusals | Serdes.h:328-371 | Which error decodeCommand throws on every buffer it refuses: malformed when short, a mismatch with both CRCs, an unexpected type, and for a bad payload length malformed, or a buffer size error exactly for the array commands once their count is there |
| Codec.ResponseRefusals | Serdes.h:283-326 | The same for decodeResponse, whose bad payload lengths are always malformed |
| Bytes.LEAt | Serdes.h:454-474 | The i-th byte that an append loop writes is the digit of 256^i: the low byte goes first |
| Bytes.FromLEOfLE | Serdes.h:454-474 | Reading what an append loop wrote gives the value modulo 256^width |
| Bytes.LEOfFromLE | Serdes.h:490-500 | Writing what an extract loop read gives the same bytes |
| Crc.CalculateFits | Serdes.h:564-606 | The CRC fits its field, so appending and extracting it loses nothing |
| Crc.FeedInjective | Serdes.h:566-604 | With each of these generators a register step is a bijection: equal input never heals a difference |
| Crc.BurstChangesCrc | Serdes.h:564-606 | Two messages of any length that differ within CrcBytes * 8 consecutive bits have different CRCs |
| Crc.CrcParity | Serdes.h:564-606 | For all four parameter sets the parity of the CRC is the parity of the message |
| CrcDivision.Crc8IsRemainder | Serdes.h:566-575 | For every message: the CRC is v if and only if v is what division of the message, with 8 zeros behind it, by x^8 + 0xD5 leaves over GF(2) |
| CrcDivision.Crc16IsRemainder | Serdes.h:576-585 | The same with 16 zeros and x^16 + 0x1021 |
| CrcDivision.Crc24IsRemainder | Serdes.h:586-595 | The same with x^24 + 0x328B63, ones added to the first 24 bits of the message and to the remainder |
| CrcDivision.Crc32IsRemainder | Serdes.h:596-605 | The same with x^32 + 0x1EDC6F41 and ones, each byte taken and the remainder given lowest bit first |
| CrcDivision.RemainderUnique | Serdes.h:564-606 | Only one remainder fits a dividend and a generator, so each of these statements fixes the CRC |
| CrcCheckValues.CheckValue8 | Serdes.h:566-575 | CRC-8/DVB-S2 of "123456789" is its published check value 0xBC |
| CrcCheckValues.CheckValue16 | Serdes.h:576-585 | CRC-16/XMODEM of "123456789" is 0x31C3 |
| CrcCheckValues.CheckValue24 | Serdes.h:586-595 | CRC-24/INTERLAKEN of "123456789" is 0xB4F3E6 |
| CrcCheckValues.CheckValue32 | Serdes.h:596-605 | CRC-32/INTERLAKEN of "123456789" is 0xE3069283 |
| CrcCheckValues.EmptyMessage | Serdes.h:564-606 | The CRC of no bytes is 0 for all four |
| Detection.BodyBurstRefused | Serdes.h:285-290 | A burst of at most CrcBytes * 8 bits in the body of an accepted frame makes both decoders report a CRC mismatch |
| Detection.BodyBytesRefused | Serdes.h:330-335 | Replacing at most CrcBytes consecutive body bytes of an accepted frame makes both decoders report a CRC mismatch |
| Detection.FieldCorruptionRefused | Serdes.h:552-563 | So does any change confined to the CRC field |
| Detection.OddErrorRefused | Serdes.h:287-290 | So does flipping an odd number of bits anywhere in the frame, the CRC field included |
| Detection.FrameBurstRefused | Serdes.h:475-481 | With a 1 or 4 byte CRC, so does a burst as long as the CRC anywhere in the frame, also across the boundary |
| Detection.StraddlingBurstAccepted | Serdes.h:477-480 | With a 2 or 3 byte CRC, every body ending in an even byte has another accepted frame within such a burst |
| Detection.FrameBurstsExactly | Serdes.h:564-606 | The whole-frame burst guarantee holds if and only if CrcBytes is 1 or 4 |
| Limits.OverheadFits | Serdes.h:382-425 | A message size of at least 32 covers every fixed-size message, so no overhead subtraction underflows |
| Limits.LimitsTight | Serdes.h:379-427 | A count is within a limit exactly when it is below 256^sizeof(LengthType) and every message that limit covers fits the transport |
| Limits.CommandWireSize | Serdes.h:430-441 | The encoded length of every command is the size that its encoder computed, so the closing assertion holds |
| Limits.ResponseWireSize | Serdes.h:786-1044 | The same for every response |
| Limits.CommandEncodableExactly | Serdes.h:650-720 | A command encoder succeeds exactly when the count fits LengthType and both the command and its acknowledge fit the transport; its only error is the size error |
| Limits.ResponseEncodableExactly | Serdes.h:819-869 | The same for responses: only the two array acknowledges can be refused, and the compressed one also when its command would not fit |
| Service.AcceptedExactly | Serdes.h:379-427 | An encoder accepts a command exactly when its count fits LengthType and both its bytes and those of the acknowledge that would answer it fit the transport |
| RoundTrip.CommandRoundTrip | Serdes.h:610-785 | Decoding an encoded command gives it with every field reduced modulo 256^width and `posted` kept, or a buffer size error exactly when its array count does not fit the wire |
| RoundTrip.ResponseRoundTrip | Serdes.h:786-1053 | The same for all fifteen responses, with a malformed-packet error instead |
| RoundTrip.InRangeCommandUnchanged | Serdes.h:454-474 | A command whose fields fit the wire comes back as it was |
| RoundTrip.InRangeResponseUnchanged | Serdes.h:454-474 | A response whose fields fit the wire comes back as it was |
| RoundTrip.CommandCanonical | Serdes.h:328-427 | Re-encoding a decoded command gives the identical bytes, or the size error exactly when the buffer or the acknowledge it asks for exceeds the transport |
| RoundTrip.ResponseCanonical | Serdes.h:283-427 | Re-encoding a decoded response gives the identical bytes, or the size error exactly when the buffer, or for compressed reads the command behind it, exceeds the transport |
| RoundTrip.DirectionsDisjoint | Serdes.h:236-263 | No buffer is accepted as a command and as a response |
| TypeBytes.CommandTypeLaw | Serdes.h:236-263 | The eleven command types follow one law: bit 7 clear, bit 6 says posted, bits 5 to 2 are the operation, bit 1 clear, and bit 0 makes the number of ones odd |
| TypeBytes.ResponseTypeLaw | Serdes.h:236-263 | The fifteen response types follow it too, with bit 7 set, bit 6 for NAK, and the operation of the command they answer |
| TypeBytes.TakenByType | RegisterTarget.h:142-155 | How the client takes any response, by id and type byte: a protocol error, an unexpected type unless the operation is the command's, and then data or, with bit 6, a NAK with its status cut to 32 bits |
| Serdes.Buffer.AppendInteger | Serdes.h:454-474 | The append loop adds exactly the little-endian bytes of the value |
| Serdes.BufferView.ExtractInteger | Serdes.h:490-551 | The extract loop returns the integer at the front and advances past it, or throws and leaves the view |
| Serdes.BufferView.ExtractArray | Serdes.h:501-529 | The unchecked array loop consumes exactly its elements, or throws when they are not all there |
| Serdes.BufferView.ExtractPairs | Serdes.h:530-540 | The same for address and data pairs |
| Serdes.Serdes.Create | Serdes.h:268-275 | The constructor throws exactly for message sizes below 32 |
| Serdes.Serdes.GetMaxSeqReadCount | Serdes.h:379-389 | The limit computed by division, minimum and narrowing return is the specified one |
| Serdes.Serdes.GetMaxSeqWriteCount | Serdes.h:390-400 | The limit computed by division, minimum and narrowing return is the specified one |
| Serdes.Serdes.GetMaxCompReadCount | Serdes.h:401-416 | The limit computed over command and acknowledge is the specified one |
| Serdes.Serdes.GetMaxCompWriteCount | Serdes.h:417-427 | The limit computed by division, minimum and narrowing return is the specified one |
| Serdes.Serdes.AppendCrc | Serdes.h:475-481 | The CRC of the bytes so far, as fixed by division and check values above, is appended low byte first |
| Serdes.Serdes.EncodeCommand | Serdes.h:277-282 | The seven encoders with their guards and loops produce exactly the specified bytes or the size error |
| Serdes.Serdes.EncodeResponse | Serdes.h:372-377 | The fifteen response encoders do the same |
| Serdes.Serdes.DecodeCommand | Serdes.h:328-371 | The cursor-based decoder returns what the position-based specification does, errors included |
| Serdes.Serdes.DecodeResponse | Serdes.h:283-326 | The same for responses |
| Service.ServeEncoded | ServerAdapter.h:84-105 | Answerability: the server decodes every accepted command whose count fits the wire, runs it once, and can always encode its acknowledge or NAK |
| Service.ServeOverflow | ServerAdapter.h:84-84 | On a count that does not fit the wire the decoder throws, outside the try block, and the target is untouched |
| Service.FullLengthFits | Serdes.h:387-425 | With LengthBytes equal to sizeof(LengthType) every accepted count fits the wire |
| Service.ReceivedId | RegisterTarget.h:143-144 | Reading any reply gives a protocol error exactly when the 8-bit ids differ |
| Service.ReceivedOwn | RegisterTarget.h:140-156 | Reading the reply to one's own command gives what the target, called directly, returned, a thrown exception as NAK 0xFD |
| Service.ReceivedAny | RegisterTarget.h:142-155 | How any thread reads any reply: a protocol error when the 8-bit ids differ, an unexpected type when the kinds do, and otherwise the other command's result as its own |
| System.RunInv | ServerAdapter.h:78-107 | In every run, whatever the encoder, the server and the client make of the bytes: ids in flight are distinct and agree with the 8-bit ones; the sent commands are, in order, those applied, dropped, held and queued; the responses queued are the replies to those applied and not yet consumed; a dead worker met a command that cannot be served |
| Safety.AcceptanceExact | RegisterTarget.h:140-156 | In every run a thread that receives takes the reply to the oldest unconsumed command. It sees a protocol error exactly when that command's id differs from its own modulo 256; otherwise it accepts the result of that command, whoever sent it, when the kinds agree, and sees an unexpected type when not |
| Safety.NoForeignAnswer | RegisterTarget.h:138-160 | With any number of threads, timeouts and failed encodes: while the live ids span at most 256, a response is either the answer to the command just sent or a protocol error |
| Safety.WindowTight | RegisterTarget.h:157-160 | With a span of 257, for any two commands the encoder accepts, the first with a count that fits, and any target, there is a run in which the second, as its caller wrote it, takes the first one's stale answer for its own result if the kinds agree, and sees an unexpected type if not |
| Safety.ExactlyOnceInOrder | SyncPairedIpcTransports.cpp:13-48 | In every run: sent = queued + held + responses queued + consumed + dropped; sent = waiting threads + receives + timeouts; the target is the fold of the applied prefix |
| Safety.AfterStop | SyncPairedIpcTransports.cpp:21-35 | After a stop request nothing leaves the command queue, at most the command already being worked on is still applied, at most one is lost in the whole run, and every applied command has exactly one response |
| Safety.WorkerEnds | ServerAdapter.h:80-83 | From any state with a stop requested the worker's own next steps end it |
| Safety.NeverCrashes | ServerAdapter.h:80-105 | When the count limits fit the wire no codec exception escapes the loop in any run |
| Safety.CrashingRun | ServerAdapter.h:84-84 | Otherwise one call kills the worker, whatever the target |
| Safety.SurvivesExactly | ServerAdapter.h:78-107 | So the worker survives every run if and only if the count limits fit the wire |
| Safety.NarrowLengthField | Serdes.h:390-400 | A configuration on the failing side: with a 16-bit LengthType sent as one byte over the default transport, a write of 256 values is accepted and its count leaves as 0 |
| EndToEnd.Refinement | RegisterTarget.h:138-156 | One thread, no timeouts, any interleaving with the server, any configuration: every finished operation returned what the command run directly on the target returns, and at rest nothing is in flight, the worker lives and the target is in the state those commands leave |
| EndToEnd.OnlyDirectOutcomes | RegisterTarget.h:143-154 | Such a client sees data, NAK 0xFD or the size error, and never a protocol error, an unexpected type or a decode error |
| EndToEnd.InRangeExact | RegisterTarget.h:24-42 | For values that fit the wire the direct result is the target's, unreduced |
| EndToEnd.LogIsCalls | RegisterTarget.h:157-160 | The operations that an undisturbed run finishes are, in order, the calls of the run, the last one possibly pending; each asks of the target, and puts into its type byte, what its caller wrote, and the k-th has id k modulo 256 |
| EndToEnd.PendingFinishesExactly | RegisterTarget.h:140-141 | Deadlock freedom: from every undisturbed state with an operation pending some undisturbed continuation finishes it, exactly when its count fits the wire |
| EndToEnd.ScheduleCompletes | ServerAdapter.h:78-107 | Every sequence of operations whose accepted commands have counts that fit the wire has an undisturbed run that finishes all of them in order, each as its caller wrote it and with id k modulo 256 |
| Transports.IpcTransportQueue.Push | SyncPairedIpcTransports.cpp:13-20 | Push adds at the end |
| Transports.IpcTransportQueue.Pop | SyncPairedIpcTransports.cpp:36-48 | Pop takes the oldest buffer, or throws a timeout on an empty queue |
| Transports.IpcTransportQueue.PopUnlessStopped | SyncPairedIpcTransports.cpp:21-35 | With a stop requested the pop returns an empty buffer and removes nothing, even when a buffer is waiting |
| Transports.PairedIpcTransport.GetMaxMessageSize | SyncPairedIpcTransports.cpp:92-95 | The size is narrowed to 16 bits and unchanged below that |
| Transports.MakeSyncPairedIpcTransport | SyncPairedIpcTransports.cpp:109-117 | The two endpoints are cross-wired over two fresh, empty, distinct queues |
| ServerAdapter.RapServerAdapter.HandleCmd | ServerAdapter.h:24-77 | The handlers run the one target operation, and answer with an acknowledge of the same kind and id whose k-th value is the k-th that the target wrote, or 0, or with NAK 0xFD when it throws |
| ServerAdapter.RapServerAdapter.CallTarget | ServerAdapter.h:41-61 | The target's own state and exception, and its values in the span one by one |
| ServerAdapter.RapServerAdapter.Create | ServerAdapter.h:16-21 | Construction takes the size from the transport and throws exactly when its 16-bit value is below 32 |
| ServerAdapter.RapServerAdapter.BackgroundWork | ServerAdapter.h:78-107 | The loop, while the peer keeps sending, with a stop that falls before the guard, before the pop or before the check after it, leaves queues, target and worker exactly as the rounds before the stop do |
| ServerAdapter.StopLosesExactly | ServerAdapter.h:80-83 | Of all commands that ever arrive a first part is answered, in order and once each; one more is lost exactly when the stop falls between the pop and the check after it and there was one to take; the rest stay queued |
| RegisterTarget.RapRegisterTarget.GetNextTxnId | RegisterTarget.h:157-160 | Returns the counter and increments it modulo 256 |
| RegisterTarget.RapRegisterTarget.Create | RegisterTarget.h:16-20 | Construction takes the size from the transport and throws exactly when its 16-bit value is below 32 |
| RegisterTarget.MakeSoftwareLoop | README.md:140-146 | A client and a server over one pair of queues can be built exactly when the message size modulo 65536 is at least 32; they are then connected, at rest, with id 0 and one configuration |
| RegisterTarget.RapRegisterTarget.CheckIFS | RegisterTarget.h:161-170 | Accepts an increment exactly with the increment feature, or 0 with fifo, or the data size with sequential |
| RegisterTarget.RapRegisterTarget.DoCmdResp | RegisterTarget.h:138-156 | Encode, send, wait, receive, decode and visit: the new queues, target and result are those of the specified exchange |
| RegisterTarget.RapRegisterTarget.CopyOut | RegisterTarget.h:84-85 | An error is raised before the copy and leaves the span alone; otherwise the values replace the front of the span and the rest stays |
| RegisterTarget.RapRegisterTarget.Write | RegisterTarget.h:24-33 | One id and one exchange; returns or raises as that ends. From rest: the target's write(addr, data), each cut to the wire; NAK 0xFD raised when the target throws |
| RegisterTarget.RapRegisterTarget.Read | RegisterTarget.h:34-42 | One id and one exchange. From rest: the first value that the target's read(addr) writes, cut to the data width; NAK 0xFD raised when it throws |
| RegisterTarget.RapRegisterTarget.ReadModifyWrite | RegisterTarget.h:44-57 | Delegated without a trace when the feature is off; otherwise one exchange, and from rest the target's operation with address, data and mask in place, or NAK 0xFD raised |
| RegisterTarget.RapRegisterTarget.SeqWrite | RegisterTarget.h:59-72 | Delegated when the increment is not supported; otherwise one exchange with the increment cast to LengthType, and from rest the target's seqWrite with every value in order, or NAK 0xFD raised |
| RegisterTarget.RapRegisterTarget.SeqRead | RegisterTarget.h:73-86 | The same with the size cast too; an error is raised and leaves the span alone. From rest the k-th element is the k-th value that the target wrote, or 0, cut to the data width, up to the size modulo 256^LengthBytes; the rest, and on a throwing target the whole span, keep their contents |
| RegisterTarget.RapRegisterTarget.FifoWrite | RegisterTarget.h:88-100 | Delegated when the feature is off; otherwise as SeqWrite with increment 0 |
| RegisterTarget.RapRegisterTarget.FifoRead | RegisterTarget.h:101-111 | As SeqRead with increment 0, and no feature check |
| RegisterTarget.RapRegisterTarget.CompWrite | RegisterTarget.h:113-123 | Delegated when the feature is off; otherwise one exchange, and from rest the target's compWrite with every pair in order, or NAK 0xFD raised |
| RegisterTarget.RapRegisterTarget.CompRead | RegisterTarget.h:124-135 | The same; from rest the k-th element is the k-th value that the target wrote, or 0, and on a throwing target NAK 0xFD is raised and every element keeps its contents |
| Exchanges.ExchangeIsDirect | RegisterTarget.h:138-156 | From rest, an exchange of a command that is refused or has a count that fits leaves nothing behind, moves the target as the command does, and returns the target's result cut to the wire |
| Exchanges.ExchangeOverflow | ServerAdapter.h:84-84 | Otherwise the worker dies, the target is untouched and the client times out |
| Exchanges.ExchangeIsRun | ServerAdapter.h:78-107 | From any state in which the client is idle, stale responses included, an exchange of a command that carries the next id is what a run of the step system does, so what holds in every run holds of the classes |
| Exchanges.StoppedIsRun | ServerAdapter.h:80-83 | What the stopped loop of the class leaves behind is what a run with a stop leaves, for each place the stop can fall |
| Exchanges.SeqReadFills | RegisterTarget.h:78-85 | On every configuration a sequential or fifo read brings as many values as the size modulo 256^LengthBytes: never more than the span, and all of it exactly when its size is below that |
| Exchanges.WrappedReadCopiesNothing | RegisterTarget.h:82-82 | A read into a span of 256^sizeof(LengthType) elements succeeds and brings no values |
| Exchanges.PartialRead | RegisterTarget.h:82-85 | With a 16-bit LengthType sent as one byte over the default transport, a read of 400 elements is accepted and brings 144 values |
| Exchanges.CompReadFills | RegisterTarget.h:129-134 | A compressed read that succeeds, with a count that fits the wire, brings a value for each address |
| Operations.ReadReaches | RegisterTarget.h:34-42 | read(addr) from rest is the target's read of addr cut to its width; the caller gets the first value written, or 0, or NAK 0xFD |
| Operations.WriteReaches | RegisterTarget.h:24-33 | write(addr, data) from rest is the target's write of both, cut to their widths, or NAK 0xFD when it throws |
| Operations.ReadModifyWriteReaches | RegisterTarget.h:44-57 | readModifyWrite reaches the target with address, data and mask in place, cut to their widths, or NAK 0xFD when it throws |
| Operations.SeqReadReaches | RegisterTarget.h:73-86 | seqRead and fifoRead reach the target with start, size and increment in place, cut to their widths; the i-th value returned is the i-th that the target wrote, or 0; NAK 0xFD when it throws |
| Operations.SeqWriteReaches | RegisterTarget.h:59-72 | seqWrite and fifoWrite reach the target with start, every value in order, and increment; NAK 0xFD when it throws |
| Operations.CompReadReaches | RegisterTarget.h:124-135 | compRead reaches the target with its addresses in order; the i-th value returned is the i-th that the target wrote, or 0; NAK 0xFD when it throws |
| Operations.CompWriteReaches | RegisterTarget.h:113-123 | compWrite reaches the target with every pair in order; NAK 0xFD when it throws |
| Operations.CallRefused | RegisterTarget.h:138-141 | A command above its limit raises the size error and touches nothing |
| Dissector.PayloadTree.AddArray | WiresharkDissector.lua:156-159 | The loop over `fi + i * width` cuts the same fields as laying elements end to end, up to the first out of range |
| Dissector.PayloadTree.AddPairs | WiresharkDissector.lua:191-196 | The same for address and data pairs |
| Dissector.PayloadTree.Show | WiresharkDissector.lua:136-213 | Each branch cuts the fields that the message type lays out, and completes exactly when they fit the payload |
| Dissector.Dissect | WiresharkDissector.lua:119-214 | Header, payload range and CRC at their fixed places, then the payload by type |
| Dissector.CommandShown | WiresharkDissector.lua:136-204 | For every frame decodeCommand accepts, the dissector shows exactly its fields, in order, over ranges that tile the payload, and the CRC of what precedes it |
| Dissector.ResponseShown | WiresharkDissector.lua:138-210 | The same for every response |
| Dissector.TiledIffAccepted | WiresharkDissector.lua:119-214 | Among frames with a good CRC, those shown completely and without leftover payload are exactly those a decoder accepts |

## Left out

- The UDP transport, its sockets, resolver and timers.
- Real time, mutexes and condition variables: a push or pop is one atomic step, and a client timeout may happen whenever the queue is empty.
- The server's own receive timeout, after a year without traffic; `Transports.PairedIpcTransport.SetTimeout` keeps the value, and nothing depends on it.
- Exchanges.StoppedIsRun: stated for a loop into which nothing arrives; `ServerAdapter.StopLosesExactly` covers arrivals at class level and `Safety.AfterStop` covers them in every run.
- Concurrent use of the class-level client: the classes run one operation at a time with the worker's rounds in between; interleaved threads are in the step system.
- RegisterTarget.RapRegisterTarget.CopyOut: a copy past the end of the caller's span has no defined effect in C++; the model reports it as an outcome, and `Exchanges.SeqReadFills` and `Exchanges.CompReadFills` show that it does not happen with the client's own answer.
- The base-class fallbacks of the register target for features that are off; their code is not part of this model, and such calls end as delegated.
- Operations.SeqWriteReaches: stated, like the other array operations of that module and of the class, for arrays that the encoder accepts and whose count fits the wire; `Operations.CallRefused` and `Exchanges.ExchangeOverflow` cover the others.
- The table generation and lookup of the CRC library, which is not part of this model.
- Posted commands from end to end: the client never sends them and the server answers them; the codec covers them.
- Chunking of large transfers and delivery of interrupts, which the source does not implement; the interrupt message is in the codec.
- `AddressBits` and `DataBits`, which the codec never enforces.
- The width of AddressType and DataType: addresses and data are any natural numbers, which only adds inputs.
- Logging, exception texts and `reserve` calls.
- The dissector's tree titles, column texts, increment names, port registration and display types; the count and increment fields are declared with the width of data there.
- Dissector.Dissect: frames shorter than header and CRC are reported as one outcome; the tool library's reading of a payload length of -1 as "the rest" is not modelled.
