# Verified model of the Kaonic packet network and checksum engine

Dafny models of two parts of the Kaonic radio stack, with proofs.

**The packet network** (`kaonic-net`, `kaonic-frame`, driven by `kaonic-ctrl`). A payload is cut into
numbered segments, each segment is encoded into one radio frame, and the receiver collects frames that
arrive in any order, interleaved, lost or repeated, in a bounded table whose slots expire after 500 ms.
What is proved about every run of the receiver:

* *Safety*: each message handed out is one that was sent under that identifier, byte for byte, although
  the assembler also visits packets left over from earlier messages (`Receiver.Safety`).
* *Delivery, exactly*: when each frame of a message arrives once, the message is handed out at its last
  frame if and only if its first frame found room and no other frame was processed after its slot had timed
  out; otherwise it is never handed out (`Loss.DeliveredIff`). `EndToEnd.Delivered` says when that is so in
  terms of frames on the wire and arrival times.
* *Delivery under repeats*: however often its frames are repeated, a message is handed out when its last missing
  segment arrives if and only if the first of its slots then holds all the others (`Repeats.DeliveredIffReady`).
  A repeat spoils that exactly when it finds a free or expired slot in front of the message, unless it repeats the
  only segment so far (`Repeats.RepeatSpoilsIff`): a repeat can lose a message of which every segment arrived in time.
* *Exact storing*: which packets are stored, where, and what else changes, for any traffic (`Slots.StoredIff`,
  `Slots.JoinsFirstPlace`, `Slots.TakesFirstVacancy`).
* *Conservation*: accepted copies of a segment are held, delivered or expired, so a message is handed out at
  most as often as any one of its segments was received (`Conservation.RunConserves`,
  `Conservation.DeliveredAtMostAsReceived`), and it can be as often (`Redelivery.DeliveredAsOftenAsReceived`).
* *Refusals, exactly*: which frames each decoder accepts, the error of each other one, and what an accepted frame
  leaves in the packet (`Decodings.LdpcDecodedIff`, `Decodings.BinaryDecodedIff`, `Decodings.DecodedContents`).
* *Non-interference*: the packet shared with the transmit side and the bytes left in memory never show
  (`Interference.ScratchNeverShows`).
* *Both directions*: two controllers driven through their methods, one transmitting and one receiving,
  carry every payload of up to 15 segments across intact (`Loopback.SendAndReceive`, and from scratch
  `Loopback.BetweenTwo`).
* *Limits, exactly*: sequence numbers travel in four bits. A message received in order and in time by a fresh
  receiver is handed out intact if and only if it has at most 15 segments (`Limits.IntactIff`). Of a longer
  one the first frames, as many as the count modulo 16 says and at least one, are handed out as the whole message
  (`Limits.LongMessageCut`): they are, byte for byte, frames of a shorter message (`Limits.FramesOfPrefix`).
* *Damage, exactly*: received packets are stored without validation, so damaged payload bytes are handed out
  (`Damage.DamagedFrameHandedOut`, `Damage.DamagedDelivered`). With up to four consecutive bytes changed in each
  segment, a message comes out intact if and only if all its packets would have validated
  (`Damage.IntactIffAllValidate`), and with that check in front of the table every run would be safe
  (`Damage.CheckedSafety`).

**The checksum engine** (`kaonic-crc`). One-shot and streaming CRC-32 computed by the kernel through an
operation socket that may cut sends short, be interrupted or fail, with software as the fallback. The
reference is the bitwise CRC-32/ISO-HDLC of section 8 of RFC 1952 and section 8.1.1.6.2 of ITU-T V.42. It is
proved that whatever the kernel answers, one-shot checksums are right over whole runs of calls, a stream
gives the checksum of all its bytes unless a system call failed after the hand-over (and then the poison
value), the hardware is used exactly when it should be, and coalescing costs at most two data sends per 64 KiB; and that the checksum detects every change
confined to four consecutive bytes.

The request table of `kaonic-net` and the measurement packets of `kaonic-iperf` are modelled as well.

## How it is built

Objects that the source updates in place are classes (`FrameSegment`, `Demuxer`, `PacketMuxer`, `Muxer`, the
packet coders, `Network`, `ControllerNetwork`, `RequestQueue`, `OpSocket`, `Backend`, `HwHasher`,
`Crc32Hasher`); their methods are proved against functions on values, and the theorems are lemmas about those
functions and about runs. `Header` and `Packet` are records that the source copies by value
(`kaonic-net/src/muxer.rs:70`), so they are datatypes held in arrays; a packet's frame keeps the bytes past its
length, which the source keeps too and can bring back into view (`kaonic-frame/src/frame.rs:73-75`).

A run of the receiver is a sequence of events: a time, a frame, and what the packet shared with the transmit
side happened to hold. Since that packet is arbitrary, transmits may happen anywhere in a run.
`ControllerNetwork` keeps the events as a ghost history, and its invariant says that the table is the one
that history leads to.

The kernel is an adversary: an operation socket carries the list of answers it is going to give. The clock,
the random message identifiers and the socket answers are parameters.

Where the source's own words and its code differ, the code is followed:

* The overview names packet decoding with CRC validation as part of the network layer, but `Network::receive` does
  not validate (`kaonic-net/src/network.rs:44-46`). The reassembly theorems are about packets that carry segments of
  sent messages, whatever their checksum says, about frames the coder rejects, and about packets that are not
  segments; the module `Damage` says exactly what the missing check costs and what it would give.
* `kaonic-crc/src/af_alg.rs:154-157` speaks of one system call per 64 KiB for a stream fed in small chunks. With
  pieces of at most `c` bytes, `n` data sends take at least `n * (65537 - c)` bytes (`AfAlg.SmallPiecesFillSends`), so
  for small pieces the sentence is right up to the length of a piece, and no more than that can be said: the bound is met
  for every `c` up to half a chunk (`AfAlg.WastefulMeetsBound`). It holds to the byte exactly when every update that
  spills over finds the buffer empty or full (`AfAlg.OneSendPerChunkIff`). For pieces of any length two sends per
  64 KiB is the limit (`AfAlg.AtMostTwoSends`).
* The tests at the end of `kaonic-net/src/lib.rs` call older signatures; the current ones are modelled.

## Model

| member | source | states |
|---|---|---|
| EndToEnd.Delivered | kaonic-ctrl/src/network.rs:27-50 | a message whose frames each arrive once, at most 500 ms apart, the first finding a free or expired slot, is handed out intact at its last frame, once, whatever other frames are interleaved, lost or repeated |
| Loopback.SendAndReceive | kaonic-ctrl/src/network.rs:27-50 | a payload of up to fifteen segments sent by one controller and passed frame by frame to a fresh one is returned by its last call and is in the output frame |
| Loopback.BetweenTwo | kaonic-ctrl/src/network.rs:11-50 | two controllers made by their constructors, with buffers made from scratch, carry every payload of up to fifteen segments across |
| EndToEnd.TaggedDelivered | kaonic-ctrl/src/network.rs:27-50 | the same for any frames that decode to segments of sent messages, transmitted or not |
| EndToEnd.InOrderDelivery | kaonic-net/src/lib.rs:40-94 | in-order frames of one message without long pauses are put together again, for every payload and both coders |
| Loss.DeliveredIff | kaonic-net/src/muxer.rs:160-218 | with each frame received once, delivery happens at the last frame exactly when no event disturbed the message, and never otherwise |
| Loss.DisturbedNeverDelivered | kaonic-net/src/muxer.rs:160-218 | a first segment without room, or one frame processed after the slot timed out, loses the message for the whole run |
| Loss.ArriveTimesOut | kaonic-net/src/muxer.rs:179-218 | any decoded frame processed after a slot's timeout expires every segment of the message held there |
| Loss.FiveHundredMilliseconds | kaonic-net/src/muxer.rs:153-218 | a message of two segments with one other frame processed in between is handed out exactly when that frame comes at most 500 ms after the first |
| Loss.TurnedAway | kaonic-net/src/muxer.rs:179-191 | with no free or expired slot a first segment is refused |
| Loss.NothingToDeliver | kaonic-net/src/muxer.rs:160-218 | with one copy of each segment, one that was refused or expired leaves the message undeliverable |
| Repeats.DeliveredIffReady | kaonic-net/src/muxer.rs:160-209 | with any number of repeats, the last missing segment hands the message out, for the first time, exactly when the first of its slots holds all the others, or at the start there is room |
| Repeats.BenignDelivered | kaonic-net/src/muxer.rs:160-218 | a run whose repeats find no room in front of the message, and whose other frames come before its timeout, delivers it once |
| Repeats.RepeatSpoilsIff | kaonic-net/src/muxer.rs:171-191 | a repeat leaves the message ready exactly when no free or expired slot comes before it or it repeats the only segment so far |
| Repeats.RepeatLosesMessage | kaonic-net/src/muxer.rs:171-209 | a repeat followed by the last missing segment delivers the message exactly under that condition |
| Repeats.IncompleteNotDelivered | kaonic-net/src/muxer.rs:91-103 | while a segment is missing, no number of repeats of the others delivers the message |
| Repeats.JoinedLed | kaonic-net/src/muxer.rs:171-177 | a slot completed by a segment that joins it was the first of the message and held all the others |
| Damage.DamagedFrameHandedOut | kaonic-net/src/network.rs:39-49 | a single-frame message with up to four changed payload bytes is handed out damaged, although its packet does not validate |
| Damage.DamagedDelivered | kaonic-net/src/network.rs:39-61 | whatever bytes arrive in the place of the segments of a message are handed out as the message |
| Damage.IntactIffAllValidate | kaonic-net/src/network.rs:39-61 | with up to four consecutive bytes changed in each segment, the message handed out is the one sent exactly when each of its packets would have validated |
| Damage.InOrderDamage | kaonic-net/src/network.rs:39-61 | a fresh receiver that gets the damaged frames of one message in order and in time hands out the damaged bytes, which are the payload exactly when each packet would have validated |
| Damage.GenuineIffValidates | kaonic-net/src/packet.rs:242-253 | of a segment with up to four changed bytes, exactly the unchanged one is genuine, and validation tells which |
| Damage.DamageOnTheAir | kaonic-net/src/coder.rs:177-218 | with the plain coder, changed frame bytes behind the header are changed payload bytes |
| Damage.CheckedAdmissible | kaonic-net/src/packet.rs:242-253 | of a run with such damage, the frames that validate are an admissible run, and the whole run is one exactly when all validate |
| Damage.CheckedSafety | kaonic-net/src/packet.rs:242-253 | with validation before storing, every message handed out would be one that was sent |
| Damage.DamagedIdentifierValidates | kaonic-net/src/packet.rs:242-253 | validation does not see a damaged identifier: such a message is handed out under the wrong one |
| Redelivery.DeliveredAsOftenAsReceived | kaonic-net/src/muxer.rs:160-209 | if each frame of a message arrives m times in a row within 500 ms, and there are m slots, the message is handed out m times: the bound on deliveries is met |
| Redelivery.EveryCopyDelivers | kaonic-net/src/muxer.rs:160-209 | in such a run every copy of the last segment hands the message out, and nothing else does |
| Redelivery.CopyArrives | kaonic-net/src/muxer.rs:171-191 | each copy of a segment goes to a slot of its own |
| Delivery.LastSegmentDelivers | kaonic-net/src/muxer.rs:160-209 | the last missing segment of an undisturbed message hands it out, for the first time |
| Delivery.Waiting | kaonic-net/src/muxer.rs:160-218 | until then the message sits in exactly one slot with exactly the segments seen, and is not handed out |
| Delivery.ArriveSegment | kaonic-net/src/muxer.rs:160-218 | a new segment extends the message in its slot, or completes and delivers it |
| Delivery.ArriveOther | kaonic-net/src/muxer.rs:160-218 | packets of other messages neither extend, release nor deliver this one before its timeout |
| Receiver.Safety | kaonic-net/src/muxer.rs:38-142 | over every run, whatever is lost, repeated, reordered or expires, a message handed out is one that was sent under that identifier; otherwise the answer is the decoding error or TryAgain |
| Receiver.ReachableTables | kaonic-ctrl/src/network.rs:27-39 | in every reachable table the live packets are genuine segments of one message per slot, and no complete message is left behind |
| Receiver.ProcessDelivers | kaonic-net/src/muxer.rs:194-209 | processing reports TryAgain exactly when no slot is complete, and otherwise hands out the complete message |
| Receiver.OnlyTheTakerCompletes | kaonic-net/src/muxer.rs:160-192 | one packet completes at most one slot |
| Receiver.CarriedSegment | kaonic-net/src/network.rs:39-49 | decoding a transmitted frame gives its segment back, whatever the scratch packet held |
| Reassembly.AssembledIff | kaonic-net/src/muxer.rs:105-142 | any complete slot assembles exactly if every number is on some packet of the array; otherwise the sequence is incorrect; space never runs out |
| Reassembly.AssembledContents | kaonic-net/src/muxer.rs:113-141 | it then gives, in the order of the numbers, the contents of the first packet of the array with each |
| Reassembly.LeftAtGap | kaonic-net/src/muxer.rs:113-139 | if a number is missing, the output frame is left with the contents of the numbers before it |
| Reassembly.FirstCompleteDecides | kaonic-net/src/muxer.rs:194-209 | only the first complete slot is tried; if it cannot be assembled it stays and the answer is TryAgain |
| Reassembly.CompleteAssembles | kaonic-net/src/muxer.rs:91-142 | a complete slot of genuine segments assembles to the payload sent; capacity and sequence errors cannot occur |
| Reassembly.AllNumbersPresent | kaonic-net/src/muxer.rs:96-102 | pigeonhole: as many different numbers as segments means none is missing |
| Reassembly.SearchFindsLive | kaonic-net/src/muxer.rs:124-131 | the search over the whole array always stops at a live packet, never at a left-over one |
| Reassembly.MultiplexGood | kaonic-net/src/muxer.rs:160-192 | storing a genuine segment never mixes messages or repeats a number within a slot |
| Conservation.RunConserves | kaonic-net/src/muxer.rs:160-218 | for any traffic, accepted copies of a segment equal those held, delivered and expired, and none is accepted that was not received |
| Conservation.ArriveBalances | kaonic-net/src/muxer.rs:160-218 | one arrival conserves packets, genuine or not |
| Conservation.MultiplexBalances | kaonic-net/src/muxer.rs:160-192 | storing gains exactly the accepted packet and loses exactly the expired ones |
| Conservation.ProcessBalances | kaonic-net/src/muxer.rs:194-209 | processing loses exactly the delivered packets |
| Conservation.DeliveryConsumes | kaonic-net/src/muxer.rs:194-205 | a delivery takes one copy of every segment of its message out of the table |
| Conservation.DeliveredAtMostAsReceived | kaonic-net/src/muxer.rs:160-209 | a message is handed out at most as often as its least-received segment |
| Interference.ScratchNeverShows | kaonic-net/src/network.rs:39-84 | the same frames at the same times give the same answers, whatever transmits leave in the shared packets |
| Interference.AlikeArrive | kaonic-net/src/muxer.rs:160-218 | one arrival depends on live headers and times only |
| Limits.IntactIff | kaonic-net/src/packet.rs:135 | received in order and in time by a fresh receiver, a message is handed out intact exactly when it has at most fifteen segments |
| Limits.LongMessageCut | kaonic-net/src/packet.rs:135 | of sixteen or more segments in order, the first n modulo 16, and at least one, are handed out as the whole message |
| Limits.FramesOfPrefix | kaonic-net/src/packet.rs:124-150 | the first frames of a message of sixteen or more segments are byte for byte those of a shorter message, up to the number that the wrapped count gives |
| Limits.SixteenFallApart | kaonic-net/src/muxer.rs:91-142 | sixteen segments in order come out as the first segment followed by fifteen empty messages |
| Limits.AloneInFreeTable | kaonic-net/src/muxer.rs:91-142 | in a table of free slots a packet announcing zero or one segments is handed out, or if it is not numbered zero the left-over packet behind it |
| Limits.LongMessageNeverIntact | kaonic-net/src/packet.rs:135 | a message of 17 or more segments is never handed out intact, in any order of arrival |
| Limits.WrappedCountTruncates | kaonic-net/src/packet.rs:135 | when the segment count wraps to zero or one, the first frame alone is handed out as the message |
| Limits.LonePacket | kaonic-net/src/muxer.rs:91-142 | a lone first packet announcing zero or one segments is handed out as a whole message |
| Limits.RepeatedFrameRedelivers | kaonic-net/src/muxer.rs:171-189 | a repeated single-frame message is handed out twice, so the bound on deliveries is met |
| Limits.ShortAssembled | kaonic-net/src/muxer.rs:105-142 | nothing longer than sixteen segments is ever assembled |
| Controller.ControllerNetwork.Receive | kaonic-ctrl/src/network.rs:27-39 | answers as the run over all frames received so far does, every error of the network turned into the controller's out-of-memory error, and puts the message into the output frame |
| Controller.ControllerNetwork.Transmit | kaonic-ctrl/src/network.rs:41-50 | yields the frames of the message, or the out-of-memory error, and leaves the received history and table unchanged |
| Controller.ControllerNetwork.constructor | kaonic-ctrl/src/network.rs:11-25 | a binary coder, 24 slots, nothing received, and all of it new, so that two controllers never share memory |
| Controller.ReceivedIsSent | kaonic-ctrl/src/network.rs:27-39 | in every reachable state of the controller the last answer is a sent message or an error, and no slot is complete |
| Controller.SentIsReceived | kaonic-ctrl/src/network.rs:27-50 | a message whose frames were all received in time was returned by the last call |
| Networks.Network.Receive | kaonic-net/src/network.rs:39-49 | a frame that fails to decode, one of another type among them, leaves the table alone; otherwise the decoded packet is stored |
| Networks.Network.DecodeScratch | kaonic-net/src/network.rs:39-44 | decodes into the first shared packet, which after an error holds what was decoded before it |
| Networks.Network.Process | kaonic-net/src/network.rs:51-61 | hands out one message, then releases every expired slot; the output frame holds the message, what was gathered before an obstacle, or what it held before |
| Networks.Network.Transmit | kaonic-net/src/network.rs:63-84 | succeeds exactly within the size limits, each frame then carrying its segment; the table is not touched |
| Networks.TransmitErrorIff | kaonic-net/src/network.rs:63-84 | exactly which payloads a transmit refuses, all as too big |
| Networks.Network.EncodeOne | kaonic-net/src/network.rs:79-81 | encodes one packet into its own frame and changes no other |
| Muxers.PacketMuxer.Push | kaonic-net/src/muxer.rs:38-76 | takes a packet exactly when there is space, the count is supported, the message is the same and the number is new; otherwise changes nothing |
| Muxers.PacketMuxer.Release | kaonic-net/src/muxer.rs:78-81 | empties the slot and keeps the array contents |
| Muxers.PacketMuxer.CanAssemble | kaonic-net/src/muxer.rs:91-103 | complete means at least as many live packets as the first one announces |
| Muxers.PacketMuxer.TimeoutReached | kaonic-net/src/lib.rs:12-19 | elapsed means strictly later than start plus timeout |
| Muxers.PacketMuxer.Assemble | kaonic-net/src/muxer.rs:105-142 | gathers in order the first packet of the whole array with each number, or reports the first obstacle and leaves what was gathered before it |
| Muxers.Muxer.Multiplex | kaonic-net/src/muxer.rs:160-192 | joins the first slot that takes the packet, or opens the first free one, expiring those passed on the way |
| Slots.StoredIff | kaonic-net/src/muxer.rs:160-192 | a packet, repeat or not, is stored exactly if it is segmented, its count is supported, and some slot has a place for it in its message or is free or expired; NotSupported exactly if it is not segmented |
| Slots.JoinsFirstPlace | kaonic-net/src/muxer.rs:171-177 | the first slot with space that holds its message and not its number gets the packet behind its others, stamped now; nothing else changes |
| Slots.TakesFirstVacancy | kaonic-net/src/muxer.rs:179-189 | any other packet, also a repeat, becomes the one packet of the first free or expired slot, stamped now; nothing else changes |
| Slots.RefusedChanges | kaonic-net/src/muxer.rs:165-191 | a packet that is not stored only empties slots past their timeout, and not even those if it is not segmented |
| Muxers.Muxer.TryJoin | kaonic-net/src/muxer.rs:171-177 | first pass: only the first slot that takes the packet changes |
| Muxers.Muxer.TryOpen | kaonic-net/src/muxer.rs:179-191 | second pass: expired slots up to and including the one opened are released, later ones are left |
| Muxers.Muxer.Process | kaonic-net/src/muxer.rs:194-209 | assembles and releases the first complete slot; keeps it when assembling fails; says what the output frame then holds |
| Muxers.Muxer.ReleaseExpired | kaonic-net/src/muxer.rs:211-218 | releases exactly the slots past their timeout |
| Muxers.Muxer.constructor | kaonic-net/src/muxer.rs:153-158 | an empty table of separate slots |
| Demuxers.Demuxer.Demultiplex | kaonic-net/src/demuxer.rs:30-94 | writes the segments over the first packets, keeping the rest, or reports the first failing check; the inner bounds check never fires |
| Demuxers.DemuxedPackets | kaonic-net/src/demuxer.rs:50-94 | the packets are numbered from zero with a common count of at most R, validate, are full except the last, and together are the payload |
| Demuxers.AcceptedIff | kaonic-net/src/demuxer.rs:36-50 | a payload is accepted exactly when it is at most segment size times R and its ceiling count fits the slice |
| Demuxers.RefusedIff | kaonic-net/src/demuxer.rs:30-94 | for every configuration, which payloads are accepted, which are too big, and which do not fit a frame |
| Demuxers.ChunkCount | kaonic-net/src/demuxer.rs:97-103 | the rounded-up quotient is the number of pieces |
| Demuxers.ChunkCountBound | kaonic-net/src/demuxer.rs:24-39 | a payload fits R full segments exactly when it is cut into at most R pieces |
| Demuxers.ChunksConcat | kaonic-net/src/demuxer.rs:52-94 | the pieces put together are the payload |
| Demuxers.ChunksOfConcat | kaonic-net/src/demuxer.rs:52-94 | full pieces with a shorter last one are exactly what their concatenation is cut into |
| Demuxers.AllButLastFull | kaonic-net/src/demuxer.rs:59-63 | every piece but the last has the full segment size |
| Coders.RoundTrip | kaonic-net/src/coder.rs:43-162 | decoding an encoded packet restores header and payload whatever the receiving packet held, for both coders and every lossless block code |
| Coders.RoundTripIff | kaonic-net/src/coder.rs:43-218 | a built packet that fits comes back intact exactly when length, number and count fit their fields on the wire |
| Coders.FitsIff | kaonic-net/src/coder.rs:30-41 | an encoded packet fits a frame exactly when its payload is at most the advertised maximum |
| Coders.BlocksRoundTrip | kaonic-net/src/coder.rs:119-155 | decoding encoded blocks appends the zero-padded payload |
| Coders.EncodedReadable | kaonic-net/src/coder.rs:137-155 | the decoder never runs past the end of an encoded frame |
| Coders.FrameLayout | kaonic-net/src/coder.rs:43-95 | the bytes of a frame: header and payload, or a 32-byte word and then 256 bytes for each 128, each the encoding of its block |
| Coders.EncodedWord | kaonic-net/src/coder.rs:63-92 | word j encodes block j of the payload, zero-filled if it is the last |
| Coders.WrittenFits | kaonic-net/src/coder.rs:43-95 | of a packet that does not fit, all whole pieces that do are written |
| Decodings.LdpcDecodedIff | kaonic-net/src/coder.rs:97-162 | exactly which frames are decoded with error correction, and which error each of the others gets |
| Decodings.DecodedBlocksIff | kaonic-net/src/coder.rs:128-155 | a payload is decoded exactly if it is made of whole words that can all be corrected and have room; otherwise the first word that ends the decoding tells the error |
| Decodings.DataOfWord | kaonic-net/src/coder.rs:137-155 | block j of the result is the first 128 bytes that word j decodes to |
| Decodings.HeaderWordIff | kaonic-net/src/coder.rs:100-124 | the header word is refused if it is too short, cannot be corrected, or is of another type |
| Decodings.BinaryDecodedIff | kaonic-net/src/coder.rs:196-218 | the plain decoder accepts exactly frames of the payload type that are not longer than a packet, and names the error of the others |
| Decodings.DecodedContents | kaonic-net/src/coder.rs:196-218 | an accepted frame leaves as many bytes as its header says, at most one block: first those of the frame, then left-over ones |
| Decodings.LeftBeforeStop | kaonic-net/src/coder.rs:137-155 | when decoding stops at a word, the packet holds the data of the words before it |
| Decodings.OtherTypeRefused | kaonic-net/src/packet.rs:159-162 | with either coder a header of another type is not supported |
| Decodings.OtherTypeIgnored | kaonic-net/src/network.rs:39-49 | the receiver answers NotSupported to a frame of another type and stores nothing |
| Decodings.UncorrectableIgnored | kaonic-net/src/network.rs:39-49 | the receiver answers CorruptedData to a frame with a word that cannot be corrected and stores nothing |
| Coders.ReadableIff | kaonic-net/src/coder.rs:137-201 | the frames on which decoding indexes out of range: shorter than a header, or ending within a code word that the decoder reaches |
| Coders.BlocksReadableIff | kaonic-net/src/coder.rs:137-155 | blocks run past the end exactly when the input is not whole words and no earlier word stops the decoder |
| Coders.PriorIrrelevant | kaonic-net/src/coder.rs:97-161 | the outcome of decoding and the decoded header do not depend on what the packet held |
| PacketCoders.LdpcPacketCoder.Encode | kaonic-net/src/coder.rs:43-95 | fills the frame with the encoded header and blocks, or runs out of memory exactly when they do not fit, leaving the header and the blocks that fit |
| PacketCoders.LdpcPacketCoder.Decode | kaonic-net/src/coder.rs:97-162 | decodes through the reused buffer to the specified packet, or to the error and the blocks decoded before it |
| PacketCoders.LdpcPacketCoder.FillBlock | kaonic-net/src/coder.rs:76-81 | the scratch buffer starts with the block, zero-filled, whatever it held |
| PacketCoders.BinaryPacketCoder.Encode | kaonic-net/src/coder.rs:177-194 | header then payload, or out of memory exactly when they do not fit, leaving the header if that fits |
| PacketCoders.BinaryPacketCoder.Decode | kaonic-net/src/coder.rs:196-218 | the specified packet, or the error and an empty packet with the header if that was read |
| Packets.Pack | kaonic-net/src/packet.rs:124-150 | writes the sixteen header bytes |
| Bytes.LowestFirst | kaonic-net/src/packet.rs:135-147 | numbers are written with their lowest byte first |
| Packets.UnpackPack | kaonic-net/src/packet.rs:124-195 | unpacking a packed header restores it with both sequence fields modulo 16 |
| Packets.HeaderSurvivesIff | kaonic-net/src/packet.rs:124-195 | a header survives exactly when both sequence fields are below 16 |
| Packets.UnpackedIff | kaonic-net/src/packet.rs:152-195 | bytes are a header exactly if there are sixteen and the first is 0xBA; fewer are OutOfMemory, another type is NotSupported |
| Packets.PackUnpackAny | kaonic-net/src/packet.rs:124-195 | every header that is read packs into the bytes it was read from, but for three reserved ones |
| Packets.WireFormat | kaonic-net/src/packet.rs:124-150 | where each field is on the wire, in numbers |
| Packets.PackUnpack | kaonic-net/src/packet.rs:124-195 | packing an unpacked header restores all bytes with the payload type and zero reserved bytes |
| Packets.BuiltValidatesIff | kaonic-net/src/packet.rs:229-253 | a built packet validates exactly when its length fits 16 bits |
| Packets.BurstInPayloadRejected | kaonic-net/src/packet.rs:242-253 | damage confined to four consecutive payload bytes is always rejected by validation |
| Frames.FrameSegment.PushData | kaonic-frame/src/frame.rs:35-39 | appends exactly when the data fits, otherwise changes nothing |
| Frames.FrameSegment.AllocBuffer | kaonic-frame/src/frame.rs:77-89 | reserves bytes without clearing them, exactly when they fit |
| Frames.FrameSegment.CopyFromSlice | kaonic-frame/src/frame.rs:41-46 | replaces the contents, cut to the capacity |
| Frames.FrameSegment.Resize | kaonic-frame/src/frame.rs:73-75 | sets the length, capped by one block, bringing left-over bytes into view |
| Frames.FrameSegment.Clear | kaonic-frame/src/frame.rs:64-67 | empties the frame and keeps its bytes |
| Crc32.BurstDetected | kaonic-net/src/packet.rs:242-253 | two different messages that differ only within four consecutive bytes have different checksums |
| Crc32.WindowInjective | kaonic-net/src/packet.rs:263-265 | from one register, different windows of up to four bytes lead to different registers |
| Crc32.FoldInjective | kaonic-net/src/packet.rs:263-265 | a difference in the register survives every common continuation |
| Crc32.FoldAppend | kaonic-crc/src/lib.rs:110-111 | processing in pieces is processing the whole |
| Crc32.CheckValue | kaonic-crc/src/af_alg.rs:37-39 | the reference gives the published check value |
| AfAlg.SendAll | kaonic-crc/src/af_alg.rs:436-460 | feeds all bytes despite short sends and interrupts, with one send per chunk plus one per hiccup, or fails with one system call |
| AfAlg.OpSocket.Send | kaonic-crc/src/af_alg.rs:436-494 | the kernel's side of a send: takes a prefix, is interrupted without effect, or fails leaving any state; without the more-flag the hash closes over what was taken |
| AfAlg.OpSocket.Read | kaonic-crc/src/af_alg.rs:8-15 | the kernel's side of a read: the register of all bytes fed, little-endian, without final exclusive-or; the socket starts over |
| AfAlg.Tfm.AcceptOp | kaonic-crc/src/af_alg.rs:399-412 | a fresh socket of its own exactly if the call succeeds, or nothing |
| AfAlg.SendFinal | kaonic-crc/src/af_alg.rs:469-494 | closes over exactly all bytes, or reports failure, a short send included |
| AfAlg.ReadDigest | kaonic-crc/src/af_alg.rs:517-544 | gives the standard checksum of what was fed and leaves the socket fresh, or reports failure |
| AfAlg.NormalizedIsChecksum | kaonic-crc/src/af_alg.rs:264-268 | byte order and final exclusive-or turn the kernel register into the standard checksum |
| AfAlg.ChecksumOn | kaonic-crc/src/af_alg.rs:418-432 | right and leaving a fresh socket, or failed exactly when a system call failed |
| AfAlg.Backend.Crc32With | kaonic-crc/src/af_alg.rs:116-149 | the right checksum exactly if there are bytes, a socket was cached or could be accepted, and no system call failed; the socket is then kept, and dropped after a failure; between calls it is absent or fresh |
| AfAlg.Backend.HwCrc32 | kaonic-crc/src/af_alg.rs:103-109 | the hardware computes inputs from 16 KiB on exactly if there is a socket and no call fails; shorter ones never reach the kernel |
| AfAlg.Backend.Crc32 | kaonic-crc/src/lib.rs:29-38 | always the reference checksum, whichever kernel calls fail; one hardware operation is counted exactly if the hardware computed it |
| AfAlg.Backend.WarmUp | kaonic-crc/src/af_alg.rs:87-96 | afterwards a socket is cached exactly if one was or one could be had |
| AfAlg.HwHasher.Update | kaonic-crc/src/af_alg.rs:189-227 | kernel bytes followed by the buffer are all bytes given, the buffer is bounded and empty only at the start, and the number of sends is as computed, unless a call failed |
| AfAlg.HwHasher.Finalize | kaonic-crc/src/af_alg.rs:229-261 | the checksum of the stream if no call ever failed, the poison value otherwise; the hardware is credited with every checksum but that of the empty stream and the poison value; the zero-length close is unreachable |
| AfAlg.AtMostTwoSends | kaonic-crc/src/af_alg.rs:151-157 | however a stream is cut, 64 KiB cost at most two data sends |
| AfAlg.OneSendPerChunkIff | kaonic-crc/src/af_alg.rs:151-157 | no send takes more than 64 KiB, and a stream costs one send per 64 KiB exactly when every update that spills over finds the buffer empty or full |
| AfAlg.SmallPiecesFillSends | kaonic-crc/src/af_alg.rs:154-157 | with pieces of at most c bytes, n sends take at least n times 65537 - c bytes |
| AfAlg.WastefulMeetsBound | kaonic-crc/src/af_alg.rs:154-157 | for every c up to half a chunk and every number of sends some stream meets that bound |
| AfAlg.UpdateCosts | kaonic-crc/src/af_alg.rs:194-218 | an update loses exactly what the buffer falls short of a chunk when it is sent |
| AfAlg.TwoSendsNeeded | kaonic-crc/src/af_alg.rs:151-157 | pieces of 32769 bytes cost one send each after the first, close to two per 64 KiB |
| Hasher.Crc32Hasher.Update | kaonic-crc/src/lib.rs:140-180 | with hardware the stream is held back exactly while its total length is below 16 KiB, then goes to the hardware exactly if a socket is accepted, stays there, and nothing held back is lost or repeated at the hand-over |
| Hasher.Crc32Hasher.Finalize | kaonic-crc/src/lib.rs:182-190 | the checksum of everything given, or the poison value if a call failed after the hand-over |
| Hasher.StreamRouted | kaonic-crc/src/lib.rs:140-190 | where the kernel serves in full, the hardware computes a stream exactly if its total length reaches 16 KiB, however it is cut |
| Hasher.StreamBesideOneShots | kaonic-crc/src/lib.rs:110-190 | every way of cutting a message gives its one-shot checksum, and one-shot checksums in between come out right and do not disturb the stream |
| Hasher.UpdateThenOneShot | kaonic-crc/src/af_alg.rs:151-152 | a stream and one-shot checksums of the same thread never share an operation socket |
| Requests.RequestQueue.Request | kaonic-net/src/request.rs:59-81 | purges expired requests, then stores the request in the first free slot or reports Busy |
| Requests.RequestQueue.Response | kaonic-net/src/request.rs:47-57 | calls the responder of the first request for the identifier and removes it |
| Requests.BusyIff | kaonic-net/src/request.rs:66-80 | Busy exactly when every slot holds an unexpired request |
| Requests.RequestStored | kaonic-net/src/request.rs:66-77 | an accepted request is stored with its own identifier, time, timeout and responder in the first free slot; every expired request is gone and every other unchanged |
| Requests.BusyChangesNothing | kaonic-net/src/request.rs:66-80 | a refused request changes nothing |
| Requests.AnswerCallsResponder | kaonic-net/src/request.rs:47-81 | after an accepted request and operations for other identifiers, the answer calls its responder, unless one of them was a request made after its timeout |
| Requests.RunAnswers | kaonic-net/src/request.rs:47-81 | the same at any point of a run that starts with an empty table |
| Requests.StaysUntilOutlived | kaonic-net/src/request.rs:47-81 | through operations for other identifiers a request stays in the table until one of them outlives it |
| Requests.CalledForOwnId | kaonic-net/src/request.rs:47-57 | a responder is called only for its own identifier, and is gone afterwards |
| Requests.RunConserves | kaonic-net/src/request.rs:47-81 | over every run, accepted requests are answered, purged or pending |
| Requests.CalledAtMostOnce | kaonic-net/src/request.rs:47-81 | a responder handed over once is called at most once, and not if it was purged or still waits |
| Iperf.FillPacket | kaonic-iperf/src/main.rs:54-78 | writes the measurement packet of the clamped size into the frame |
| Iperf.FilledBytes | kaonic-iperf/src/main.rs:54-78 | the layout of the packet byte by byte, padding included |
| Iperf.ParsedIff | kaonic-iperf/src/main.rs:88-122 | a packet is accepted exactly if it has 24 bytes, the magic and its own checksum; each error has its exact case |
| Iperf.ParseFilled | kaonic-iperf/src/main.rs:54-122 | an unchanged packet gives back its number and time stamp for every requested size |
| Iperf.BurstReported | kaonic-iperf/src/main.rs:88-113 | damage to four consecutive bytes between magic and checksum is reported as a checksum mismatch |

## Left out

- Networks.Network.Transmit: the message identifier is a parameter; its random generation (`kaonic-net/src/generator.rs`) is not modelled, and run theorems assume one payload per identifier.
- PacketCoders.LdpcPacketCoder.Decode: the working buffer belongs to the block code and is not modelled.
- Damage.IntactIffAllValidate: changes of more than four bytes per segment, which a 32-bit checksum cannot all detect, and changes to the header, which it does not cover, are not claimed to be noticed.
- Networks.Network.constructor: frames too small for any payload byte are excluded; there the source could only send empty payloads, and divides by zero doing so.
- Controller.ControllerNetwork.Receive: frames shorter than a packet header are excluded, because the source indexes out of range on them and stops; `Coders.ReadableIff` says for both coders which frames these are.
- AfAlg.OpSocket.Send: a send that is not the last and succeeds takes at least one byte, and interrupts come finitely often.
- AfAlg.HwHasher.Finalize: the process-wide count of checksums served by hardware is kept with the state of the thread.
- Requests.RequestQueue.Response: the responder's own action is not modelled; the call made to it is the method's result.
- Header and Packet setters work on values, because the source copies these records; aliasing of packets therefore does not arise in the model, and in the source exclusive borrows rule it out.
- Times and sizes are unbounded; the source's 128-bit milliseconds and machine words would have to overflow to differ.
- The LDPC algorithm of `labrador_ldpc` is not part of this model: the round trips hold for every pair of block codes of the TC256 and TM2048 sizes whose decoding undoes their encoding. Correction of damaged code words is not claimed.
- `crc32fast` is not part of this model; the software backend is taken to compute the reference checksum.
- Opening and probing the kernel socket, its self check and its zero-length close, and behaviour across a fork: foreign calls and fixed vectors.
- Controller clock, tasks, channels, client table, payload serialisation, gRPC, radio and FPGA drivers, user interfaces and factory tools: input and output around the modelled core.
