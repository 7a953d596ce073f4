# Verification of the VESC driver's wire stacks

This project models the two wire stacks of the pyvesc motor-controller driver and
the arithmetic under them, in Dafny 4.11, and proves what they keep, restore and
refuse. `dafny verify dfyconfig.toml` checks all of it.

| file | what it models |
|---|---|
| `Bytes.dfy`, `Wrappers.dfy` | bytes, big-endian and two's complement fields, Option and Result |
| `Crc16.dfy` | the table-driven CRC-16/XMODEM of the firmware uploader |
| `CrcTheory.dfy`, `CrcDetection.dfy` | that it is the remainder of polynomial division, and the errors it cannot miss |
| `PacketCodec.dfy` | the packet codec: framing, and the scanner that recovers from corruption |
| `PacketScan.dfy` | the scanner as a linear search, and how many bytes a failed scan drops |
| `PacketStream.dfy` | packets on a byte stream, cut into arrivals anywhere |
| `PacketNoise.dfy` | the same with noise in front of the stream |
| `PacketIntegrity.dfy` | damaged packets that are never accepted |
| `VescRead.dfy` | the polling loop of `VESC.read` |
| `Message.dfy`, `Interface.dfy` | messages with scaled fields and one string; encode and the multi-packet decode |
| `CanFrames.dfy`, `CanBus.dfy` | CAN ids, tunnel chunking, STATUS decoding; the receive path of `VescCanBus` |
| `Tunnel.dfy` | COMM payloads through the CAN tunnel, in order and out of order |
| `CommRequest.dfy`, `Ping.dfy` | the two request protocols between caller threads and the receiving thread |
| `RequestReply.dfy` | the tunnel and the request protocol together |
| `Firmware.dfy` | the firmware image, the erase and the upload loop |
| `FloatCodec.dfy` | the hand-written 32-bit float of the configuration |
| `ConfigParams.dfy`, `ConfGenerator.dfy` | parameter kinds, parameter objects and the configuration blobs |

How to read it. Code that is expressions and recursion is functions; code that
updates things step by step is methods with loops, and classes where the source has
objects. Each such method is proved equal to a function of its inputs or of the old
state, and the properties are lemmas about that function.

The codec, the tunnel and the uploader take their checksum as a parameter
(`crc: Checker`) and everything about them holds for any function in its place; the
results that need CRC-16/XMODEM name `Crc16.Checksum`. Where the source calls the
crccheck library, that library is assumed to compute the same function as
`pyvesc/firmware.py`; `PacketIntegrity.GoldenChecksum` and `GoldenPacket` anchor it to
the packet that the codec's tests take as known good.

A timeout is a step that may fire at any time. Arrivals on a transport are sequences of
chunks or of CAN frames. Doubles are exact real numbers.

## What the code does not promise

Some properties one would expect are false of the code. The code is modelled as it is,
a failing input or run is given, and the exact condition is proved.

- A packet that is still arriving is not always retained, contrary to
  docs/source/index.rst:163-166. The start of the first pending packet is kept exactly when
  it is at the front of the buffer, or a good packet is found that ends before it, or none
  is found and no later start byte looks corrupt (`PacketScan.RetainedIff`; a concrete
  buffer is in `PendingPacketLost`).
- So with noise in front of a stream, what is read depends on how the bytes are cut into
  arrivals, unless the first packet holds no candidate that is complete before it
  (`PacketNoise.NoiseHarmlessIff`; a packet that is lost by one cut is in `CutLosesPacket`).
- Framing what was unframed gives the same bytes only for packets in canonical form:
  the scanner also accepts empty payloads and long headers with a short length
  (`PacketStream.ReframeIff`; those packets are in `NonCanonicalAccepted`).
- A message gives a field back unchanged exactly when the field is `Restorable`: scaling
  truncates, a scalar of 0 always packs zero, and a message with a string field is scaled
  when packed but not when unpacked (`Message.RoundTrip`; one message of each kind is in
  `FractionIsLost`, `ZeroScalarLoses` and `StringKeepsScaled`). A message with a string field
  cannot be forwarded over CAN (`Message.Forwarded`), and decoding one gives the string
  alone (`Interface.EncodeDecode`).
- The order of FILL frames is irrelevant exactly when the last chunk starts within the
  receiver's buffer: up to 517 bytes for the 512 it starts with
  (`Tunnel.OrderIrrelevantIff`, `Tunnel.FitsInitialBuffer`).
- A stored reply can be forgotten unreturned: replies of the asked controller are safe
  exactly when no other controller replies to the host (`CommRequest.NeverLostIff`).
- Even then a caller can sleep to its deadline with its reply stored, when a late reply to
  an earlier request is stored and announced between the two steps that begin the next
  one (`CommRequest.SleepsOnEarlyReply`). A waiting caller is woken for a stored reply
  exactly when one had not yet been announced as it cleared the event
  (`CommRequest.NoLostWakeup`).
- Concurrent pingers share one event and can clear each other's wakeup: no pinger sleeps on
  with its answer there exactly when there are no two of them (`Ping.NeverSleepsOnIff`).
  A ping can also forget the answer to another one: no pinger misses a recorded answer
  exactly when no two of them ping the same controller (`Ping.NeverMissesIff`; a run is in
  `AnswerForgotten`).
- A firmware file of no bytes uploads nothing, not even its header. After the erase, the
  image of a file whose size fits the header is in the flash exactly when the file is not
  empty and no write was refused (`Firmware.UploadFile`).
- The float codec gives a number back unchanged exactly when it is zero or has at most 24
  significant bits and is neither cut off nor 2^129 or more (`FloatCodec.NumberKeptIff`);
  from 2^129 on its exponent wraps (`FloatCodec.TruncatesIff`), and subnormal words are not
  read as binary32 reads them (`FloatCodec.AgreesWithBinary32`).
- A configuration blob that was cut short is not always refused: its last floats are read
  from what is left, exactly when no other line lacks a byte (`ConfGenerator.ParsesIff`).
- A read that asks for an id crashes when the scanner accepts an empty payload
  (`VescRead.CrashesIff`).
- Creating a message class enters it into the registry before its fields are checked
  (`Message.MessageClasses.Register`).

## Model

| member | source | states |
|---|---|---|
| `Crc16.Compute` | `pyvesc/firmware.py:37-42` | the loop over the table computes `Crc`, which the rows below characterise |
| `CrcTheory.TableEntryIsShift` | `pyvesc/firmware.py:6-34` | each of the 256 table entries is its index pushed through eight steps of the bitwise shift register |
| `CrcTheory.CrcIsRemainder` | `pyvesc/firmware.py:6-42` | the table form equals bit-by-bit long division by x^16+x^12+x^5+1, for every byte string |
| `CrcDetection.CrcIsTheRemainder` | `pyvesc/firmware.py:37-42` | a 16-bit word completes the message to a multiple of the generator if and only if it is the CRC |
| `CrcDetection.ResidueIsZero` | `pyvesc/firmware.py:37-42` | the CRC of data followed by two bytes is zero if and only if those bytes are the big-endian CRC of the data |
| `CrcDetection.BurstDetected` | `pyvesc/firmware.py:37-42` | two messages of equal length, any length, that differ only within 16 consecutive bits have different CRCs |
| `CrcDetection.OddErrorsDetected` | `pyvesc/firmware.py:37-42` | an odd number of flipped bits, wherever they are, changes the CRC |
| `Bytes.BigEndianFields` | `pyvesc/protocol/base.py:16-18` | fields of one, two and four bytes, unsigned and signed, have their most significant byte first |
| `PacketCodec.NextPossiblePacketIndex` | `pyvesc/protocol/packet/codec.py:45-65` | the least index after the first byte that holds a start byte, and -1 exactly when there is none |
| `PacketScan.UnpackAt` | `pyvesc/protocol/packet/codec.py:122-162` | one attempt at index i returns the packet if it is complete and valid, waits or recovers if it is incomplete, and recovers or raises if it is corrupt |
| `PacketScan.RecoverAt` | `pyvesc/protocol/packet/codec.py:164-183` | the mutually recursive recovery from index i finds the first good packet behind i, or drops what the corrupt candidates own |
| `PacketScan.UnframeFindsFirst` | `pyvesc/protocol/packet/codec.py:122-183` | for every buffer, the scanner is a linear search: it waits if it is empty or the front is incomplete, otherwise it returns the payload of the first complete valid packet and its end, and None exactly when there is no such packet |
| `PacketScan.FailureDropsCorruptBytes` | `pyvesc/protocol/packet/codec.py:164-183` | a failed scan consumes exactly as many bytes as belong to corrupt candidates, more than none and no more than there are |
| `PacketScan.ConsumedZero` | `pyvesc/protocol/packet/codec.py:122-162` | nothing is consumed exactly when the buffer is empty or its front is an incomplete packet |
| `PacketScan.PendingRetainedIff` | `pyvesc/protocol/packet/codec.py:177-180` | when nothing is recovered, the start of the first pending packet is kept if and only if no candidate behind it is corrupt |
| `PacketScan.RetainedIff` | `pyvesc/protocol/packet/codec.py:122-183` | for every buffer, the start of the first pending packet is kept if and only if it is at the front, or a good packet is found that ends before it, or none is found and no candidate behind it is corrupt |
| `PacketScan.PendingPacketLost` | `pyvesc/protocol/packet/codec.py:164-183` | a concrete buffer whose pending packet loses its start |
| `PacketScan.StrictRaisesIffCorrupt` | `pyvesc/protocol/packet/codec.py:157-162` | with strict errors, the front is a packet, waits, or raises, and it raises exactly when it is corrupt |
| `PacketStream.FrameRoundTrip` | `pyvesc/protocol/packet/codec.py:190-205` | unframing a framed payload, whatever follows it, returns the payload and consumes exactly its packet, in either error mode |
| `PacketStream.PartialWaits` | `pyvesc/protocol/packet/codec.py:141-147` | any proper prefix of a packet is left alone |
| `PacketStream.ReframeIff` | `pyvesc/protocol/packet/structure.py:13-50` | framing what was unframed gives the same bytes if and only if the packet is in canonical form |
| `PacketStream.NonCanonicalAccepted` | `pyvesc/protocol/packet/structure.py:13-50` | an empty payload, and any payload below 256 bytes behind a long header, is accepted and returned by the scanner in a form that framing refuses to make or makes otherwise |
| `PacketStream.ChunkingIrrelevant` | `pyvesc/VESC.py:195-212` | draining after each arrival gives every complete packet once and in order and keeps the beginning of the next, however a prefix of the stream is cut into arrivals |
| `PacketStream.ChunkedDrain` | `pyvesc/VESC.py:195-212` | in terms of payloads: any cutting of any prefix of the frames of a list yields its first k payloads, and the leftover is a proper prefix of the next frame |
| `PacketStream.StreamRoundTrip` | `pyvesc/VESC.py:195-212` | a whole stream of frames, cut anywhere, drains to exactly the payloads sent, with nothing left |
| `PacketNoise.NoiseHarmlessIff` | `pyvesc/protocol/packet/codec.py:164-183` | with any noise in front of any stream of packets, every cutting of every part of it drains to what that part holds if and only if the first packet holds no candidate that is complete before it |
| `PacketNoise.NoiseDoesNoHarm` | `pyvesc/VESC.py:195-212` | in particular, in front of such a packet the noise leaves no trace, however it and the packets are cut |
| `PacketNoise.CutLosesPacket` | `pyvesc/protocol/packet/codec.py:164-183` | a packet behind one byte of noise that is found in one arrival, and of whose first seven bytes nothing is kept |
| `PacketIntegrity.BurstRejected` | `pyvesc/protocol/packet/codec.py:106-120` | a packet whose payload, checksum and terminator suffered a burst of up to 16 bits, anywhere behind the header, is never accepted at its index |
| `PacketIntegrity.OddFlipsRejected` | `pyvesc/protocol/packet/codec.py:106-120` | nor is one with an odd number of flipped bits behind the header |
| `PacketIntegrity.GoldenChecksum` | `test.py:120-123` | the checksum of the payload `Te!` is 0x4292 |
| `PacketIntegrity.GoldenPacket` | `test.py:120-123` | so its packet is the one the tests take as known good |
| `VescRead.DrainBuffer` | `pyvesc/VESC.py:199-215` | unframes everything available, keeps the newest matching frame, and fails on an empty payload when an id is expected |
| `VescRead.HandlePoll` | `pyvesc/VESC.py:193-226` | one pass of the polling loop stops exactly when `Stops` says so, with the answer of what had arrived |
| `VescRead.PollsTaken` | `pyvesc/VESC.py:190-226` | the first poll that stops the read, or all of them |
| `VescRead.Read` | `pyvesc/VESC.py:166-231` | the read ends at the first poll that stops it, or at the deadline, and answers from exactly what had arrived by then |
| `VescRead.NewestMatchWins` | `pyvesc/VESC.py:188-227` | for any arrival schedule of well-formed frames, what the read returns is the newest payload that carries the id asked for, of the frames that had arrived in full when it ended, and None if and only if none does |
| `VescRead.FrameRead` | `pyvesc/VESC.py:190-226` | such a read ends at the first poll at which the line is quiet behind an arrival, or whole frames have arrived and the last of them just did with one that matches, or none matches and nothing need be expected; it takes all polls if there is no such one |
| `VescRead.QuietRule` | `pyvesc/VESC.py:220-226` | whatever bytes arrive, a read that must hear something ends on a poll that finds nothing only at the first one that finds the line quiet behind an arrival |
| `VescRead.StringRead` | `pyvesc/VESC.py:188-231` | a read of a string ends at the first poll that finds the line quiet behind an arrival, or at the deadline, with every byte that had arrived; a probe ends at its first poll without a response if that finds nothing |
| `VescRead.CrashesIff` | `pyvesc/VESC.py:205-211` | whatever bytes arrive, a read fails with an IndexError if and only if it is for one frame with an id and it drained an empty payload |
| `VescRead.StopsOnWholeBurst` | `pyvesc/VESC.py:216-219` | a read that stops on an arrival stops exactly when the arrivals are whole frames and one of them matches, so no fresher frame was waiting behind |
| `Message.Pack` | `pyvesc/protocol/base.py:209-271` | the packing loops compute `Packed` |
| `Message.Unpack` | `pyvesc/protocol/base.py:154-206` | the unpacking loop, which overwrites the data in place, computes `Unpacked` |
| `Message.RoundTrip` | `pyvesc/protocol/base.py:154-271` | unpacking a packed message gives the id back, and each field unchanged if and only if it is restorable; a string of any length at any position always is |
| `Message.FractionIsLost` | `pyvesc/protocol/base.py:184-190` | 0.55 scaled by 10 packs to 5 and comes back as 0.5 |
| `Message.ZeroScalarLoses` | `pyvesc/protocol/base.py:184-190` | 1 scaled by 0 packs to 0 and comes back as 0 |
| `Message.StringKeepsScaled` | `pyvesc/protocol/base.py:154-271` | 0.5 scaled by 10 in a message with a string field packs, and is not restorable |
| `Message.PacksIff` | `pyvesc/protocol/base.py:209-271` | a message packs if and only if it has at most one string field, scalars for all fields or for none, and every value fits its field |
| `Message.PackedBytes` | `pyvesc/protocol/base.py:209-271` | a packed message is its id and then the bytes of its fields in order and nothing else: a string in ASCII or as it is, a number as it is without scalars, and otherwise times its scalar, cut off toward zero |
| `Message.PackFails` | `pyvesc/protocol/base.py:239-271` | a message without a string field that does not pack fails with a TypeError if a value to be scaled is no number, and otherwise with a struct error |
| `Message.Forwarded` | `pyvesc/protocol/base.py:256-271` | a CAN id prefixes the same bytes with the forwarding header, exactly for messages without a string field and ids that are a byte |
| `Message.TailIgnored` | `pyvesc/protocol/base.py:183-190` | bytes behind the fields of a message without a string change nothing |
| `Message.UnpacksIff` | `pyvesc/protocol/base.py:154-206` | a message unpacks if and only if its class is known and has a field list, its body is long enough, and its string is ASCII or declared as bytes; an unknown class is a KeyError |
| `Message.ReadableIff` | `pyvesc/protocol/base.py:175-206` | the body alone: too short a one is a struct error |
| `Message.NumberRestored` | `pyvesc/protocol/base.py:184-190` | over exact rationals, scaling, truncating and dividing gives a number back if and only if `NumberRestorable` holds |
| `Message.PackedSize` | `pyvesc/protocol/base.py:175-182` | the packed size is the fixed size plus the length of the string, which is how that length is inferred |
| `Message.MessageClasses.Register` | `pyvesc/protocol/base.py:22-111` | an id is never rebound; a class with no fields or two string fields is refused after it was entered |
| `Interface.Decode` | `pyvesc/protocol/interface.py:5-74` | the unframing loop ends on every buffer, counts exactly the bytes it took, and combines the messages it found |
| `Interface.SplitReplyDecodes` | `pyvesc/protocol/interface.py:25-71` | any split of a bytestring into the frames of one getter decodes to exactly that bytestring and uses up the buffer |
| `Interface.TextReplyDecodes` | `pyvesc/protocol/interface.py:60-64` | a text reply of any number of ASCII packets decodes to its lines, each ended by a newline |
| `Interface.EncodeDecode` | `pyvesc/protocol/interface.py:5-90` | decoding any number of encoded messages of one class, in the direction whose fields they were packed from, uses up their packets; without a string field one message comes back with its restorable fields and no others unchanged, and several are a ValueError; with a string field the result is all strings, as lines or as bytes, or an error for any other scalar |
| `Interface.UnpackFails` | `pyvesc/protocol/interface.py:34-36` | the first frame that cannot be unpacked fails the whole buffer with its error |
| `Interface.ManyFail` | `pyvesc/protocol/interface.py:65-69` | several messages are a ValueError when the first one has no string field |
| `Interface.StrangerFailsAll` | `pyvesc/protocol/interface.py:59-63` | a message of another class among strings is an AttributeError |
| `Interface.EncodesIff` | `pyvesc/protocol/interface.py:77-90` | a message is encoded if and only if every field is encodable and it packs to at most 65535 bytes; a longer one is refused by the framing |
| `Interface.RequestDrains` | `pyvesc/protocol/interface.py:93-107` | an encoded request carries its command id, behind the forwarding prefix if there is a CAN id, and fails exactly when that id is not a byte |
| `CanFrames.ArbitrationIdRoundTrip` | `pyvesc/can/frames.py:81-89` | packet id and controller id are recovered from the arbitration id, which exists exactly for controller ids of 0 to 255 |
| `CanFrames.EncodeFills` | `pyvesc/can/frames.py:281-292` | the two chunking loops produce the FILL frames of every offset, byte offsets first |
| `CanFrames.EncodeCommFrames` | `pyvesc/can/frames.py:269-297` | the whole encoder, with the error the code raises for every payload, controller, sender and flag that it refuses |
| `CanFrames.FramesFit` | `pyvesc/can/frames.py:269-297` | a payload is encoded exactly when it has 1 to 65535 bytes and controller, sender and flag are bytes; every frame has at most 8 data bytes and that addressee |
| `CanFrames.FillFrameShape` | `pyvesc/can/frames.py:283-292` | each FILL frame carries its offset in the one or two bytes of its kind, and the chunk at that offset |
| `CanFrames.LastFrameTells` | `pyvesc/can/frames.py:275-297` | the last frame names sender and flag, and carries a payload of up to 6 bytes, or the length and the checksum of a longer one behind FILL frames only |
| `CanFrames.GoldenShort` | `test_can_frames.py:237-242` | the one frame of a short request, byte for byte |
| `CanFrames.GoldenLong` | `test_can_frames.py:244-256` | the four frames of a payload of 20 bytes, byte for byte |
| `CanFrames.GoldenFarChunk` | `pyvesc/can/frames.py:287-292` | a chunk behind the offsets of one byte, byte for byte |
| `CanFrames.StatusesDecode` | `pyvesc/can/frames.py:356-392` | the scaled integers a controller puts into each STATUS frame are the telemetry that is decoded |
| `CanFrames.StatusTailIgnored` | `test_can_frames.py:169-174` | bytes behind the fields of a STATUS frame change nothing, as with the reserved tail of STATUS_5 |
| `CanBus.SliceAssign` | `pyvesc/can/bus.py:145-151` | Python slice assignment: the buffer never shrinks, and grows by what lies behind its end, clamped |
| `CanBus.VescCanBus.OnTunnelFrame` | `pyvesc/can/bus.py:138-158` | the in-place reassembly step is `TunnelStep` on the buffer, the reply and the event, and touches nothing else |
| `CanBus.VescCanBus.OnMessage` | `pyvesc/can/bus.py:106-133` | the receive step is `Receive` on the whole state of the bus |
| `CanBus.BufferNeverShrinks` | `pyvesc/can/bus.py:84-158` | in any run the reassembly buffer is never shorter than before |
| `CanBus.LastWord` | `pyvesc/can/bus.py:106-133` | after any run, each status of each controller is what its last frame of that packet id with enough data decodes to, of the kind of its slot, with that frame's stamp, whatever else was received |
| `CanBus.StampedIffHeard` | `pyvesc/can/bus.py:35-58` | from a fresh bus, a status is present exactly when its stamp is, which is when it was ever received, and it is of the kind of its slot |
| `CanBus.KnownNodes` | `pyvesc/can/bus.py:188-196` | the controllers known are exactly those that ever reported |
| `CanBus.LastPongWins` | `pyvesc/can/bus.py:118-123` | after any run, the hardware type known of a controller is that in its last PONG to this host, 0 if it named none |
| `CanBus.Ignored` | `pyvesc/can/bus.py:106-158` | a message without an extended id, a tunnel frame of another controller and one cut short change nothing; only tunnel frames touch the tunnel, and nothing else |
| `CanBus.StoredReplyWas` | `pyvesc/can/bus.py:138-158` | in any run, a reply that is stored was handed over by a message to this host that carried it, or announced at least its length and a checksum that fits it |
| `Tunnel.InOrder` | `pyvesc/can/bus.py:138-158` | the frames of any payload of 1 to 65535 bytes, delivered in order, leave exactly that payload and sender as the reply, whatever the buffer held and however short it was |
| `Tunnel.AnyOrder` | `pyvesc/can/bus.py:145-158` | in any order and with any repeats, if the last chunk starts within the buffer |
| `Tunnel.LastFirstLoses` | `pyvesc/can/bus.py:145-158` | otherwise delivering the last chunk first never hands the payload over |
| `Tunnel.OrderIrrelevantIff` | `pyvesc/can/bus.py:138-158` | so every order delivers the payload if and only if its last chunk starts within the buffer |
| `Tunnel.FitsInitialBuffer` | `pyvesc/can/bus.py:84` | for the 512 bytes a bus starts with, that is exactly the payloads of up to 517 bytes |
| `Tunnel.AnyOrderInAnyRun` | `pyvesc/can/bus.py:84-158` | in any run of the bus, whatever was received before, the FILL frames of such a payload to this host may arrive in any order and repeatedly |
| `Tunnel.FillsAre` | `pyvesc/can/frames.py:281-292` | the encoder's FILL frames are those of all offsets, in order |
| `Tunnel.BusDelivers` | `pyvesc/can/bus.py:106-158` | what the bus makes of messages that carry tunnel frames to this host is what the tunnel makes of the frames, and nothing else changes |
| `Tunnel.BusInOrder` | `pyvesc/can/bus.py:106-158` | a whole reply to this host, received in order by a bus in any state, is stored and announced |
| `CommRequest.StepKeeps` | `pyvesc/can/bus.py:138-186` | every step of every caller and of the receiving thread keeps the invariant: one request at a time, the stored reply is the last one published since the reset, the log is genuine |
| `CommRequest.ReturnedIsFresh` | `pyvesc/can/bus.py:160-186` | in every interleaving, a returned payload came from the asked controller, in a message completed by a frame received after this request forgot the old reply |
| `CommRequest.OneAtATime` | `pyvesc/can/bus.py:166-186` | requests never overlap, and no caller unpacks a reply that has gone |
| `CommRequest.NoLostWakeup` | `pyvesc/can/bus.py:166-186` | while only the asked controller replies, a reply stored since the request began is still stored when its caller waits, and the event is set or about to be if and only if one was not yet announced when the caller cleared it |
| `CommRequest.SleepsOnEarlyReply` | `pyvesc/can/bus.py:166-181` | a run in which a caller waits, its reply stored, for an event that nobody is going to set |
| `CommRequest.NeverLostIff` | `pyvesc/can/bus.py:166-186` | with any number of callers, no run loses a reply of the asked controller if and only if no other controller replies to the host |
| `CommRequest.ReplyLostBehindAnother` | `pyvesc/can/bus.py:182-186` | after another controller's reply was read, the right one can be stored and forgotten, and the caller waits with nothing stored |
| `CommRequest.AnotherReplies` | `pyvesc/can/bus.py:160-186` | a run of any number of callers that reaches that window |
| `CommRequest.EndsWithoutReplyIff` | `pyvesc/can/bus.py:168-181` | in every run, a request ends without a reply if and only if its last step found the time up or the bus dead, is rejected if and only if it could not be encoded, and is sending exactly as long as there is more to send |
| `CommRequest.RxIsReceive` | `pyvesc/can/bus.py:138-158` | the two steps of the receiving thread are what the bus does with a tunnel message |
| `RequestReply.FillsReceived` | `pyvesc/can/bus.py:145-151` | in any run, receiving the FILL frames of a payload puts it into the buffer and changes nothing else a request can see |
| `RequestReply.ReplyIsReturned` | `pyvesc/can/bus.py:138-186` | from any point of any run at which a request waits, there is a schedule of the encoder's frames of a reply in which it returns exactly that payload and releases the lock |
| `RequestReply.EveryScheduleReturns` | `pyvesc/can/bus.py:138-186` | in every interleaving of exactly those frames with the callers' steps, and unless the deadline fires, the reply is stored for the request and its wakeup set or about to be, until it returns exactly that payload, which it has done after four more steps of its own |
| `Ping.AnswerIsFresh` | `pyvesc/can/bus.py:218-243` | in every interleaving of any number of pingers, a returned hardware type is that of a PONG to this host by the pinged controller, received after this ping forgot the old one |
| `Ping.EveryScheduleAnswers` | `pyvesc/can/bus.py:218-243` | when no two pingers ping the same controller and a PONG comes in while a ping looks for it, then in every schedule, unless the ping runs into its deadline or cannot send, it has after four more steps of its own returned the hardware type of a PONG of that controller received after it forgot the old one |
| `Ping.EndsWithoutAnswerIff` | `pyvesc/can/bus.py:222-235` | in every run, a ping ends without an answer if and only if its last step found the time up or the bus dead, and is rejected if and only if the id could not be encoded |
| `Ping.NoLostWakeup` | `pyvesc/can/bus.py:230-243` | a single pinger with its pong recorded never sleeps on without the wakeup on its way |
| `Ping.WakeupLostToAnother` | `pyvesc/can/bus.py:236-241` | from that position, one pinger clears the other's wakeup, and it blocks with its answer there |
| `Ping.WindowExists` | `pyvesc/can/bus.py:218-243` | any two or more pingers can reach it |
| `Ping.NeverSleepsOnIff` | `pyvesc/can/bus.py:218-243` | no run of n pingers leaves one asleep with its answer there if and only if n is at most 1 |
| `Ping.NeverMissesIff` | `pyvesc/can/bus.py:218-243` | no run in which each pinger keeps to its own set of controllers makes a pinger at work miss a pong recorded since it forgot the old one, if and only if the sets are disjoint |
| `Ping.AnswerForgotten` | `pyvesc/can/bus.py:218-243` | a run of two pings of one controller in which the first is woken by its pong and the second forgets it before the first has looked |
| `Ping.RxIsReceive` | `pyvesc/can/bus.py:118-123` | the two steps of the receiving thread are what the bus does with a message |
| `Firmware.Firmware.Process` | `pyvesc/firmware.py:71-93` | puts size and CRC in front of the firmware, or overflows exactly for sizes of 2^32 and more; the size field is not updated |
| `Firmware.Firmware.GetNextChunk` | `pyvesc/firmware.py:104-110` | the first 384 bytes, or what is left, without padding |
| `Firmware.Firmware.ClearChunk` | `pyvesc/firmware.py:118-126` | drops the chunk, and the size becomes what is left |
| `Firmware.SizeReadsBack` | `pyvesc/firmware.py:84-89` | the size can be read back from the header, plain or marked as compressed; the mark is OR-ed into its first byte only |
| `Firmware.ImageReadsBack` | `pyvesc/firmware.py:84-93` | a reader of the image finds the size, the checksum of the firmware and the firmware at their offsets |
| `Firmware.EraseNewApp` | `pyvesc/messages/setters.py:143-151` | an acknowledged erase leaves the whole flash blank |
| `Firmware.UpdateFirmware` | `pyvesc/VESC.py:233-280` | a refused erase ends it with the flash untouched; otherwise it leaves the flash as its first chunks make a blank one; it ends at the first refused write, or after ceil((n + 6) / 384) chunks, none of them refused; with no firmware it writes nothing |
| `Firmware.StandsAfter` | `pyvesc/VESC.py:248-268` | after any number of chunks the flash holds what the whole upload puts there, and nothing behind them has changed |
| `Firmware.AllChunks` | `pyvesc/VESC.py:248-280` | all chunks together are the whole upload |
| `Firmware.UploadFile` | `pyvesc/VESC.py:233-280` | loading, processing and uploading a file, whatever the flash held, succeeds if and only if its size fits the header and neither the erase nor a write is refused; after the erase the image is in the flash if and only if it succeeds and the file is not empty; without it the flash is untouched |
| `Firmware.SkippingIsSafe` | `pyvesc/VESC.py:251-262` | on an erased flash, leaving out blank chunks and writing all of them both leave the whole image, the first touching nothing behind the last packet |
| `Firmware.WriteNewAppData` | `pyvesc/messages/setters.py:154-171` | a write stores its data and zeros up to 384 bytes, and touches nothing else |
| `FloatCodec.FrexpOf` | `pyvesc/params/config_param.py:232` | fraction and exponent of a number are unique |
| `FloatCodec.WordRoundTrip` | `pyvesc/params/config_param.py:207-249` | a 32-bit word survives deserialising and serialising if and only if it is zero or its value is at least 1.5e-38 |
| `FloatCodec.LargeWordRoundTrip` | `pyvesc/params/config_param.py:207-249` | in particular every word with an exponent field of 2 to 255 |
| `FloatCodec.TruncatesIff` | `pyvesc/params/config_param.py:224-249` | a number that is not too small comes back with its sign, no larger, and within 2^-23 of itself, if and only if it is below 2^129 |
| `FloatCodec.SecondPass` | `pyvesc/params/config_param.py:207-249` | a second pass changes nothing if and only if the number is at least the least one of 24 significant bits that is not cut off |
| `FloatCodec.SecondPassLarge` | `pyvesc/params/config_param.py:207-249` | in particular from 2^-125 on |
| `FloatCodec.NumberKeptIff` | `pyvesc/params/config_param.py:207-249` | a number comes back unchanged if and only if it is zero, or has at most 24 significant bits and lies between the cut-off and 2^129 |
| `FloatCodec.AgreesWithBinary32` | `pyvesc/params/config_param.py:207-222` | finite words are read as section 3.4 of IEEE 754-2008 reads them if and only if they are not subnormal |
| `FloatCodec.KnownWords` | `pyvesc/params/config_param.py:207-222` | three words of binary32 are read as 1, -2 and 3 |
| `ConfigParams.ValueRoundTrip` | `pyvesc/params/config_param.py:40-249` | serialised bytes have the width of the kind and read back as the value normalised by the kind |
| `ConfigParams.BytesSay` | `pyvesc/params/config_param.py:40-249` | the bytes of each kind: 0 or 1, the number itself big-endian, the nearest integer with halves to even, or the float word |
| `ConfigParams.SerialisesValueIff` | `pyvesc/params/config_param.py:40-249` | the values each kind takes, in closed form, and the error for each of the others |
| `ConfigParams.NormalisedSameIff` | `pyvesc/params/config_param.py:40-249` | which values that leaves unchanged: 0 and 1 for a boolean, whole numbers for the rounded kinds, numbers of 24 significant bits in range for the float, all others always |
| `ConfigParams.BytesRoundTripIff` | `pyvesc/params/config_param.py:40-249` | which bytes are written back unchanged: all, except a boolean byte above 1 and a float that is cut off |
| `ConfigParams.RoundIsNearest` | `pyvesc/params/config_param.py:171-175` | the rounding of the fixed-point kinds is to the nearest integer, halves to even |
| `ConfigParams.ConfigParam.Deserialise` | `pyvesc/params/config_param.py:40-222` | the parameter object takes the value; a kind that checks the length leaves it as it was when that is wrong |
| `ConfGenerator.ByteBuffer.Pop` | `pyvesc/params/confgenerator.py:11-14` | takes the front off the buffer in place; front and rest together are what was there |
| `ConfGenerator.SerialiseConf` | `pyvesc/params/confgenerator.py:16-212` | the serialising loops compute `Serialised`, with the first error in layout order |
| `ConfGenerator.SerialisesIff` | `pyvesc/params/confgenerator.py:16-212` | serialising succeeds if and only if every line of the layout has a parameter and every parameter of that name has a value that fits |
| `ConfGenerator.BlobParts` | `pyvesc/params/confgenerator.py:16-212` | a blob is the signature and then, line by line of the layout, the bytes of the first parameter of that name, and nothing else |
| `ConfGenerator.FirstError` | `pyvesc/params/confgenerator.py:16-212` | otherwise the error is that of the first parameter that does not fit, of the first line that has one |
| `ConfGenerator.MissingLine` | `pyvesc/params/confgenerator.py:16-212` | or an IndexError if that line has no parameter |
| `ConfGenerator.DeserialiseConf` | `pyvesc/params/confgenerator.py:410-606` | reads fresh parameters off the buffer in place, or nothing under another signature |
| `ConfGenerator.ParsesIff` | `pyvesc/params/confgenerator.py:410-606` | a blob cut short is refused if and only if a line other than a float lacks some of its bytes; otherwise the missing floats are read from what is left |
| `ConfGenerator.ConfRoundTrip` | `pyvesc/params/confgenerator.py:16-606` | for any layout and any parameters that cover it, a serialised configuration reads back in layout order with each value normalised, taking exactly its own bytes |
| `ConfGenerator.OrderIrrelevant` | `pyvesc/params/confgenerator.py:16-212` | with unique names, every permutation of the parameters gives the same bytes or the same error |
| `ConfGenerator.OtherSignature` | `pyvesc/params/confgenerator.py:410-414` | a blob is never read under another signature |
| `ConfGenerator.BlobsAreDistinct` | `pyvesc/params/confgenerator.py:7-9` | in particular neither of the motor and application configurations is read as the other |

## Left out

- Sockets, serial ports, python-can, TCPTransport and the candump log: input and output; they appear as arrivals and frames.
- Sleeps, deadlines, the heartbeat and the stale-byte purge in `write`: real time; a timeout is a step that may fire at any time.
- Error-handling names other than `ignore` and `strict`: with any other name the scanner of a corrupt buffer never ends.
- VescRead.Read: what `VESCMessage.unpack` or `decode` then make of the bytes is stated in Message.dfy and Interface.dfy, not repeated in the read.
- Message.Packed: field kinds `c`, `?` and fixed-length `Ns`, packing of receive fields by this program, which looks at the formats of the send fields (a reply is taken to be packed as its own fields say), numeric strings given for a scaled field, and IEEE rounding of `value * scalar`; fields are positional, so two classes that share a field name are not related.
- Interface.Combined: a message of another class without the first one's string field is an AttributeError; a class that happens to share the field name is not modelled.
- CanFrames.DecodeFrame: the divisions are exact; IEEE rounding of the quotients is not modelled.
- CanBus.Receive: subscribers and the lock around the telemetry map; each message is handled as one step.
- CommRequest.Next: one model step is one access to shared state; preemption inside such an access is not modelled.
- Ping.Next: the same, and a dead bus answers at once instead of after the timeout.
- Firmware.UpdateFirmware: progress reports, missing answers, the LZO variant of the write, and the bootloader jump; the flash is taken to store exactly what an acknowledged write carries, nothing of a refused one, and to be all 0xFF after an acknowledged erase, although the size sent with the erase leaves the header out.
- FloatCodec.Serialise: signed zero (a zero always serialises as the zero word), infinities and NaN.
- ConfGenerator.SerialiseConf: the literal names of the two layouts; any list of names and kinds is covered.
- The single-frame command encoders of `frames.py`, the node wrappers, setters and getters: one-line scalings and ids.
- Logging, progress printing, examples, bench scripts and documentation.
