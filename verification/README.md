# Verified models of libdatachannel's media and channel layers

libdatachannel cuts video frames into RTP packets and puts them together again, keeps
sent packets for retransmission, follows 16-bit counters that wrap, paces its output, and
runs a few small concurrent protocols. This project models those parts in Dafny, branch by
branch, and proves what they promise: pairs that must undo each other do so for every input,
machines keep their invariants over every run and every interleaving, and where a promise
does not hold for every input, the exact condition under which it does.

`dafny verify dfyconfig.toml` checks everything.

## How it is organised

| files | what they cover |
|---|---|
| Options, Bits, BitWriter, NonSymmetric | optional values; bit strings; the bit writer on a byte array; ns(n) codes |
| DependencyDescriptor, DescriptorWriter, DescriptorDecoder, DescriptorRoundTrip, DescriptorTransmission, DescribedPackets | the AV1 dependency descriptor: template choice, the two-pass writer, a decoder written from Appendix A.8.2 of the AV1 RTP specification, its inversion, and the descriptor in the packets of a frame |
| StartCode, NalCodec, Fragmentation, NalFrames, SequenceCheck, NalAssembly, NalDepacketizer | H.264 and H.265: splitting, fragmentation units, the wrapping sequence check, reassembly with and without loss |
| VpCodec, VpDescriptors, VpFrames | VP8 and VP9: parsers, the descriptors of RFC 7741 and RFC 9628, fragments, reassembly of whole partitions or nothing |
| Av1Obu, Av1Packets, Av1RoundTrip, Av1Senders | AV1: temporal units, aggregation headers, the cached sequence header, LEB128, and the payloads of any sender |
| RtpPacket, HeaderExtension, RtpPacketizing | RTP headers, header extensions after RFC 8285, numbering |
| ReorderBuffer, ReorderedFrames, VideoPath | the reordering buffer, and the path from packetizer to delivered frame |
| PacketCache, Nack, NackResponder | the packet cache, the NACK bitmap, compound RTCP messages, the responder |
| Rtx, RtxAllocation, MediaCodecs | RTX wrapping and restoring, payload-type allocation, the maps of the two ends |
| SequenceTracking | extended sequence numbers after Appendix A.1 of RFC 3550 |
| Pacing | the token bucket |
| Processor, DtlsReceive | task ordering, the receive wake-up counter |
| OpenMessage, DataChannelProtocol | the data channel handshake of RFC 8832 |

Code that updates state is modelled by methods and classes whose contracts tie the new state
to a function of the old one; the laws are lemmas about those functions. Bytes are numbers
below 256, `uint16_t` and `uint32_t` arithmetic is written out modulo 2^16 and 2^32. Shifts
and masks are divisions and remainders. Bodies under a mutex are one atomic step; the
protocols are state machines whose runs are arbitrary sequences of enabled steps.

## What turned out to be conditional

- The depacketizers' sequence check is a plain 16-bit comparison: when the packet numbered
  65535 is lost inside a frame, everything behind it in that frame is dropped
  (`SequenceCheck.NothingDropped` is the exact condition).
- Every NAL unit can be cut exactly when the maximum is at least twice the fragment overhead and
  below 2^16; otherwise some evened size, a 16-bit number, leaves no room behind the fragment
  header, where the source loops without progress or subtracts below zero
  (`Fragmentation.ProgressIff`, `Fragmentation.LargeMaximumExample`). The other results hold of
  every maximum that leaves room for the units at hand.
- An AV1 sequence header that is not directly followed by another unit is not sent with it
  (`Av1RoundTrip.CarriedIffFollowed`), and one above 127 bytes is sent with its length cut to
  seven bits, so that the receiver cuts it off (`Av1RoundTrip.HeaderIsFoundIff`).
- A NAL unit that ends in a zero loses it to a three-byte start code behind it, where four-byte
  codes are looked for as well (`StartCode.SplitMixedIff`, `StartCode.LostZeroExample`).
- A VP9 payload that ends among its reference indices is taken for a complete descriptor, unless a
  scalability structure should follow (`VpDescriptors.CutOffIff`,
  `VpDescriptors.MissingReferenceExample`).
- A colour space extension number above 14 does not select two-byte headers, so in one-byte
  form the element is silently left out (`RtpPacketizing.CarriedIff`).
- An attached structure is sent only when the descriptor has extended fields at all, which
  start-of-frame, a mask or a custom field brings about
  (`DescriptorRoundTrip.StructureArrivesIff`, `DescriptorRoundTrip.UnsentStructureExample`); a
  receiver without a structure reads exactly the descriptors that bring one
  (`DescriptorRoundTrip.FirstReadIff`).
- A sequence number that is stored again while it is cached keeps the old packet; its stale list
  element may later evict a newer packet of that number, or evict nothing. Exactly which stores
  are found again and which keep the limit: `PacketCache.StoreIsFoundIff`,
  `PacketCache.StaysWithinLimitIff`; a run that loses what it has just stored:
  `PacketCache.RepeatedNumberRun`.
- NACK lists come back in their order exactly when no number steps back inside the open part
  (`Nack.ComesBackIff`); a number equal to the open part's first would shift by -1, which is
  why the model requires it away
  (`Nack.OutOfOrderExample` is a list that does not come back).
- A session starts with zero counters instead of its first packet's number, so that its first
  packet goes uncounted unless its number is near 0 (`SequenceTracking.FirstPacketUncountedIff`).
- A datagram that arrives between `registerIncoming` and the change to Connecting, and for
  which the drain runs in between, waits for the handshake timer that `start` sets or, on a side
  whose `start` sets none, for the next datagram (`DtlsReceive.NoLostWakeUp`,
  `DtlsReceive.StrandedMessage`).
- The side that opens a data channel can be open before its peer is: the acknowledgement is sent
  before the peer marks itself open (`DataChannelProtocol.OpenBeforePeer`).
- The payload of a packet is found where the header says as long as the extension block has at
  most 2^18 bytes (`RtpPacketizing.PayloadIsLocatedIff`, `RtpPacketizing.OversizedBlockExample`).
- The payload-type maps of the two ends are inverse exactly when no two payload types share an
  RTX number, or there is no RTX entry at all (`RtxAllocation.InverseIff`,
  `RtxAllocation.SharedRtxExample`).
- A buffer on which a reassembler throws is not cleared: packets of other timestamps meet the same
  exception again (`ReorderBuffer.ExceptionKeepsBuffer`; `ReorderBuffer.ThrowsIff` says when it throws).
- The reordering buffer takes numbers 32768 apart for duplicates (`ReorderBuffer.EquivalentIff`).

## Model

| member | source | states |
|---|---|---|
| `BitWriting.BitWriter.Write` | src/dependencydescriptor.cpp:35-71 | at any bit offset the value's low bits are appended most significant first to the bits written so far, no other bit of the buffer changes, and the call fails exactly when the space is too small |
| `BitWriting.BitWriter.WritePartialByte` | src/dependencydescriptor.cpp:91-127 | a partial byte write splices the value's leading bits into the byte and leaves the bits before and behind as they were |
| `BitWriting.SpliceInside` | src/dependencydescriptor.cpp:91-127 | a chunk inside one byte replaces exactly those bits of the whole buffer's bit string |
| `BitWriting.Chunk` | src/dependencydescriptor.cpp:44-66 | cutting a value at a byte boundary writes the same bits as writing it in one piece |
| `NonSymmetric.WriteNonSymmetric` | src/dependencydescriptor.cpp:73-89 | emits the ns(n) code of the value |
| `NonSymmetric.BitWidth` | src/dependencydescriptor.cpp:77-81 | the loop computes the bit length of n |
| `NonSymmetric.ReadNsInverts` | src/dependencydescriptor.cpp:73-89 | for every v < n, the ns(n) decoder of the AV1 specification reads v back and leaves the rest of the bits |
| `DependencyDescriptor.CalculateMatch` | src/dependencydescriptor.cpp:141-179 | the match carries the three custom flags and the size estimate of its template |
| `DependencyDescriptor.FindBestTemplate` | src/dependencydescriptor.cpp:181-205 | fails exactly when no template has the frame's layer; otherwise returns the first template of least estimate in the first run of that layer |
| `DependencyDescriptor.BestIsUnique` | src/dependencydescriptor.cpp:190-203 | run and best template are determined by the input |
| `DependencyDescriptor.ExtraSizeIsExact` | src/dependencydescriptor.cpp:160-177 | the estimate is exactly the number of bits of the frame-specific part, and zero if and only if nothing is custom |
| `DependencyDescriptor.WidthIsShortest` | src/dependencydescriptor.cpp:371-386 | a frame difference is sent in the shortest of 4, 8 and 12 bits that holds it |
| `DescriptorWriter.WriteStructure` | src/dependencydescriptor.cpp:263-356 | emits the template dependency structure's bits, or fails exactly when they do not fit or a layer step cannot be expressed |
| `DescriptorWriter.WriteFrame` | src/dependencydescriptor.cpp:362-395 | emits the custom indications, frame differences and chain differences |
| `DescriptorWriter.DoWriteTo` | src/dependencydescriptor.cpp:229-396 | for every writer state, appends exactly the encoding of the descriptor, failing exactly when it is not accepted or does not fit |
| `DescriptorWriter.GetSizeBits` | src/dependencydescriptor.cpp:213-217 | the measuring pass over no buffer returns the encoding's length |
| `DescriptorWriter.WriteTo` | src/dependencydescriptor.cpp:220-227 | the writing pass puts encoding and zero padding into the buffer and keeps what lies behind |
| `DescriptorDecoder.ReadStructureInverts` | src/dependencydescriptor.cpp:263-356 | the decoder of Appendix A.8.2 reads an attached structure back, followed by any bits |
| `DescriptorDecoder.ReadFrameFdiffsInverts` | src/dependencydescriptor.cpp:371-386 | frame differences of 4, 8 or 12 bits are read back |
| `DescriptorDecoder.ReadLayersInverts` | src/dependencydescriptor.cpp:268-295 | the layer of every template is recovered from the next-layer codes |
| `DescriptorRoundTrip.ReadMandatoryInverts` | src/dependencydescriptor.cpp:235-241 | the three mandatory bytes are read back |
| `DescriptorRoundTrip.ReadExtendedInverts` | src/dependencydescriptor.cpp:243-360 | flags, attached structure and mask are read back by every receiver that holds the structure or is being given it |
| `DescriptorRoundTrip.RoundTrip` | src/dependencydescriptor.cpp:229-396 | for every descriptor the writer accepts, the A.8.2 decoder of every receiver that holds the structure, and of every receiver at all when the structure comes along, recovers flags, frame number, layer, indications, frame differences, active chain differences, attached structure and the mask in force |
| `DescriptorRoundTrip.FirstReadIff` | src/dependencydescriptor.cpp:243-249 | a receiver without any structure reads a descriptor if and only if the descriptor brings its structure along |
| `DescriptorRoundTrip.StreamRoundTrip` | src/dependencydescriptor.cpp:229-396 | a receiver that starts with any structure or none and keeps the last one it decoded recovers every descriptor of every stream in which each change of structure is delivered |
| `DescriptorRoundTrip.StructureArrivesIff` | src/dependencydescriptor.cpp:243-249 | an attached structure reaches the receiver if and only if the frame starts, a mask is set or a field is custom |
| `DescriptorRoundTrip.UnsentStructureExample` | src/dependencydescriptor.cpp:243-249 | a second packet with an attached structure and nothing custom: the structure is not sent, and a receiver without one reads nothing |
| `DescriptorRoundTrip.ChosenIsShortest` | src/dependencydescriptor.cpp:181-205 | no template of the candidate run would give a shorter descriptor than the chosen one |
| `DescriptorRoundTrip.MaskIsSentIff` | src/dependencydescriptor.cpp:249-262 | the mask of active decode targets is left out exactly when there is none, or the structure comes along and all are active |
| `DescriptorTransmission.Pack` | src/rtppacketizer.cpp:148-154 | whenever measuring succeeds, writing succeeds in that many bytes, fills them, and every receiver that holds the structure or is being given it recovers the descriptor from them |
| `DescribedPackets.Outgoing` | src/rtppacketizer.cpp:226-237 | with a descriptor context: throws exactly when some packet's descriptor cannot be written, otherwise every packet carries the descriptor of its place |
| `DescribedPackets.DescriptorArrives` | src/rtppacketizer.cpp:229-234 | packet i of n announces an element from which every receiver that holds the structure or is being given it recovers the descriptor, marked as start just in the first packet and as end just in the last |
| `DescribedPackets.StreamIsUnderstood` | src/rtppacketizer.cpp:226-237 | over every stream of frames in which each change of structure is attached, a receiver that starts with any structure or none recovers the descriptor of every packet, taken in order |
| `StartCode.Track` | src/nalunit.cpp:69-110 | after any bytes the matcher's state counts the trailing zeros, and it matches exactly where a start code ends |
| `StartCode.SplitFrame` | src/h264rtppacketizer.cpp:65-95 | the two scanning loops compute the split |
| `StartCode.SplitIsCodeFree` | src/h264rtppacketizer.cpp:65-95 | no delivered unit contains a start code of the mode |
| `StartCode.SplitFindsMixed` | src/h264rtppacketizer.cpp:65-95 | behind any mixture of three- and four-byte codes of the mode, and any code-free bytes ahead of them, splitting finds every code-free unit, but for a last zero that a three-byte code takes in the mode that looks for both |
| `StartCode.SplitMixedIff` | src/h264rtppacketizer.cpp:65-95 | for every mixture of codes the units are recovered if and only if none contains a code of the mode and none ends in a zero in front of a three-byte code in the mode that looks for both |
| `StartCode.LostZeroExample` | src/nalunit.cpp:69-110 | a unit that ends in a zero loses it to the three-byte code behind it |
| `StartCode.SplitJoined` | src/h264rtppacketizer.cpp:65-95 | splitting recovers a list of units from the frame that separates them if and only if none of them contains a start code of the mode |
| `NalCodec.ParseWrap` | src/h264rtpdepacketizer.cpp:70-101 | a fragmentation unit of either codec is read back as what it was made from, header fields and layer id included |
| `NalCodec.ForbiddenBitIsCleared` | src/h264rtpdepacketizer.cpp:76-88 | fragments of any H.264 unit restore its header but for the forbidden bit |
| `NalCodec.WrapStarts` | src/nalunit.cpp:44-61 | a fragment's first bytes by the numbers of RFC 6184 and RFC 7798: types 28 and 49, start and end bits, the unit's own type and other header bits |
| `NalCodec.ParseAggregate` | src/h265rtpdepacketizer.cpp:113-130 | an aggregation packet of either codec is read as exactly the list of units in it, and throws if and only if a size runs over its end |
| `NalCodec.BodyParts` | src/h264rtpdepacketizer.cpp:106-123 | every body of an aggregation packet is a list of units and a rest, so the two cases are all there are |
| `NalCodec.ParameterSetsExample` | src/h264rtpdepacketizer.cpp:106-123 | two parameter sets in one packet, and the same with the second size too large |
| `Fragmentation.EvenSizeBounds` | src/nalunit.cpp:37-41 | the evened fragment size is at most the maximum and more than the header overhead |
| `Fragmentation.ProgressIff` | src/nalunit.cpp:37-65 | for every maximum, units of every length can be cut if and only if the maximum is at least twice the overhead and below 2^16 |
| `Fragmentation.LargeMaximumExample` | src/nalunit.cpp:37-41 | a maximum of 2^16 and a unit of twice that: the even size is truncated to 0 |
| `Fragmentation.Fragments` | src/h265nalunit.cpp:34-69 | for every maximum that leaves room behind the fragment header, the loop with its shrinking size produces the payloads of the cut |
| `Fragmentation.GenerateFragments` | src/nalunit.cpp:19-32 | units above the maximum are cut, the others sent whole, in order |
| `NalFrames.FragmentationIsACut` | src/nalunit.cpp:19-67 | for every list of units and every maximum that can cut them, the payloads fit the maximum, each parses to its own piece, no fragment is start and end at once, and the pieces of a unit concatenate to it |
| `NalAssembly.FragmentsAreRuns` | src/nalunit.cpp:52-61 | every fragment of a cut frame lies in a run of exactly one start, middles and one end of the same unit |
| `SequenceCheck.CheckFollowsOrder` | src/h264rtpdepacketizer.cpp:45-60 | on any buffered part of a frame the 16-bit check tells successors from gaps, across 65535, until a lost 65535 |
| `SequenceCheck.NothingDropped` | src/h264rtpdepacketizer.cpp:45-60 | the check drops nothing if and only if no wrap is crossed over a lost 65535 |
| `SequenceCheck.LostWrapExample` | src/h264rtpdepacketizer.cpp:45-60 | losing the packet numbered 65535 costs every later packet of the frame |
| `NalAssembly.LossSafe` | src/h265rtpdepacketizer.cpp:44-144 | whatever part of a frame's packets is buffered, aggregation packets included, reassembly does not throw and delivers prefixes of distinct original units in order: nothing behind a gap joins an earlier unit |
| `NalAssembly.CompleteUnitIsDelivered` | src/h264rtpdepacketizer.cpp:45-134 | a unit all of whose packets are there, ahead of a wrap over a lost 65535, is delivered whole, whatever else is missing, and so are all units of an aggregation packet |
| `NalAssembly.Lossless` | src/h264rtpdepacketizer.cpp:45-134 | all packets, each holding one unit, several, or a piece of one, give back exactly the units, for every first number |
| `NalDepacketizer.Reassemble` | src/h264rtpdepacketizer.cpp:37-137 | the loop over the buffer, patching a byte buffer, computes the joined units of the event machine, or throws where it does |
| `NalDepacketizer.EndToEnd` | src/h265rtpdepacketizer.cpp:36-147 | split, cut, number from anywhere, carry, reassemble and split again: the same list of units, for both codecs |
| `NalDepacketizer.LossEndToEnd` | src/h264rtpdepacketizer.cpp:37-137 | the same with any subset of the packets: splitting the result gives prefixes of distinct units, in order |
| `NalDepacketizer.AnySenderArrives` | src/h264rtpdepacketizer.cpp:37-137 | however a sender cuts units into fragments and gathers them in aggregation packets, all packets give back exactly the units, for both codecs |
| `NalDepacketizer.AnySenderPartArrives` | src/h265rtpdepacketizer.cpp:36-147 | and any part of its packets gives prefixes of distinct units, in order |
| `NalDepacketizer.GatheredArrives` | src/h264rtpdepacketizer.cpp:106-123 | any list of units in one aggregation packet comes back as that list |
| `VpCodec.ReadVp9Descriptor` | src/vp9rtpdepacketizer.cpp:121-211 | the multi-branch parser computes the descriptor's size or finds it truncated, which VpDescriptors.Vp9Reads ties to RFC 9628 |
| `VpCodec.ReadVp8Descriptor` | src/vp8rtpdepacketizer.cpp:106-150 | the VP8 parser computes the descriptor's size or finds it truncated, which VpDescriptors.Vp8Reads ties to RFC 7741 |
| `VpCodec.DescriptorReads` | src/vp8rtpdepacketizer.cpp:106-150 | the one-byte descriptors of the packetizers are read back: size, start, end for VP9, and kind of frame |
| `VpDescriptors.Vp8Reads` | src/vp8rtpdepacketizer.cpp:106-143 | whatever a payload holds of any descriptor of RFC 7741: the parser finds its end, or that it is cut off, and the start bit |
| `VpDescriptors.Vp9Reads` | src/vp9rtpdepacketizer.cpp:117-211 | the same for any descriptor of RFC 9628 with picture id, layer indices, reference indices, resolutions and picture groups, but that missing reference indices at the very end go unnoticed |
| `VpDescriptors.DescriptorIsRead` | src/vp9rtpdepacketizer.cpp:117-215 | of every descriptor of the two RFCs, whatever is behind it, the parser finds exactly the end and the start bit |
| `VpDescriptors.CutOffIff` | src/vp9rtpdepacketizer.cpp:149-208 | a payload that ends inside its descriptor is given up if and only if a field other than a reference index is missing |
| `VpDescriptors.MissingReferenceExample` | src/vp9rtpdepacketizer.cpp:149-160 | a reference index that announces another, with nothing behind it, is taken for a complete descriptor |
| `VpDescriptors.PacketizersDescriptor` | src/vp9rtppacketizer.cpp:60-95 | the descriptors of both packetizers are the ones of the RFCs with start and end marks and the kind of frame, taken from the frame's first byte |
| `VpFrames.Fragment` | src/vp8rtppacketizer.cpp:84-116 | the index loop produces the fragments of the frame |
| `VpFrames.NothingSentIff` | src/vp8rtppacketizer.cpp:84-91 | nothing is sent if and only if there is no room behind the descriptor or the frame has less than three bytes (VP8) or none (VP9) |
| `VpFrames.FragmentsObey` | src/vp9rtppacketizer.cpp:67-106 | no payload of a frame exceeds the maximum, only the first is marked as start and, for VP9, only the last as end, and behind the descriptors they make up the frame |
| `VpFrames.Reassemble` | src/vp8rtpdepacketizer.cpp:68-175 | the loop with its continuity flag and pending payloads computes the specified outcome for both codecs |
| `VpFrames.PartitionsSurvive` | src/vp8rtpdepacketizer.cpp:68-175 | of any part of a frame's packets, with any of them starting a partition (VP8) or layer frame (VP9), the bytes of whole partitions that are there are delivered, in order, and all of the frame when all of it is there |
| `VpFrames.AnySenderSurvives` | src/vp9rtpdepacketizer.cpp:83-241 | the same for any descriptors of the two RFCs in front of the parts; when only the first packet starts one, it is the whole frame or nothing |
| `VpFrames.AllOrNothing` | src/vp9rtpdepacketizer.cpp:83-241 | of any subset of a frame's packets, from any first number, exactly the frame is delivered if the subset is complete and nothing otherwise |
| `Av1Obu.ReadLebReads` | src/av1rtppacketizer.cpp:74-91 | the LEB128 reader reads every encoding of up to 4 bytes |
| `Av1Obu.MinLeb` | src/av1rtpdepacketizer.cpp:68-75 | the shortest LEB128 spelling of a number below 2^28 has that value |
| `Av1Obu.ExtractTemporalUnitObus` | src/av1rtppacketizer.cpp:48-108 | the loops compute the extraction, throwing where they do |
| `Av1Obu.ExtractSerialized` | src/av1rtppacketizer.cpp:48-108 | every list of sized units is extracted in order without size fields and without the leading delimiter |
| `Av1Obu.ExtractStops` | src/av1rtppacketizer.cpp:60-66 | a unit without size field ends the extraction, the units in front of it are kept |
| `Av1Obu.ExtractOverrun` | src/av1rtppacketizer.cpp:93-104 | a unit whose size runs over the end is the last one and is left without its payload |
| `Av1Obu.ExtractThrows` | src/av1rtppacketizer.cpp:74-91 | a unit that ends ahead of the end of its size makes the extraction throw |
| `Av1Obu.BareIsHandedOn` | src/av1rtpdepacketizer.cpp:30-78 | a unit without size field is handed on with the shortest one |
| `Av1Obu.SizedIsHandedOn` | src/av1rtpdepacketizer.cpp:45-60 | a unit that already has its size, in any spelling of up to four bytes, is handed on with the shortest: bytes behind its payload are dropped and a size beyond the end is cut to what is there |
| `Av1Obu.HeaderFields` | src/av1rtpdepacketizer.cpp:34-39 | type, extension flag and size flag are where section 5.3.2 of the AV1 specification has them |
| `Av1Packets.Packetizer.FragmentObu` | src/av1rtppacketizer.cpp:157-220 | a sequence header waits; any other unit is cut into payloads, the waiting header in front of the first |
| `Av1Packets.Packetizer.Fragment` | src/av1rtppacketizer.cpp:110-124 | a temporal unit's payloads and the header left waiting |
| `Av1Packets.Reassemble` | src/av1rtpdepacketizer.cpp:87-213 | the element parser and the pending fragment compute the specified frame |
| `Av1Senders.LoadReads` | src/av1rtpdepacketizer.cpp:126-179 | every payload of the AV1 RTP payload format, with W from 0 to 3, any number of elements and any spelling of their lengths, is read as exactly its elements and its Z and Y |
| `Av1Senders.CountedReads` | src/av1rtpdepacketizer.cpp:151-162 | with W = 0, the elements in front of a length that does not end or runs over the end are taken, the rest is not |
| `Av1Senders.RestBreaksOff` | src/av1rtpdepacketizer.cpp:163-178 | the same with W above 0 and fewer elements than it announces |
| `Av1Senders.RunGroups` | src/av1rtpdepacketizer.cpp:181-206 | after any payloads whose Z and Y agree, the receiver's state is the grouping of all their elements: complete units handed on, and what is there of the next |
| `Av1Senders.AnySenderArrives` | src/av1rtpdepacketizer.cpp:87-213 | for every list of units, every cutting of them into elements and every packing of the elements into payloads, each unit is handed on once, in order, and nothing is left over |
| `Av1Senders.AnyTemporalUnitArrives` | src/av1rtpdepacketizer.cpp:87-213 | from any sender, with or without size fields, a temporal unit arrives as its units, each with the shortest size field |
| `Av1RoundTrip.RunUnits` | src/av1rtpdepacketizer.cpp:114-207 | depacketizing what was packetized delivers each unit, a carried header before its unit |
| `Av1RoundTrip.HeaderIsFoundIff` | src/av1rtppacketizer.cpp:186-196 | the receiver finds a cached sequence header and the piece behind it if and only if the header has at most 127 bytes |
| `Av1RoundTrip.LongHeaderIsCut` | src/av1rtppacketizer.cpp:189 | of a longer header only its length modulo 128 is taken for it, and the rest joins the unit behind |
| `Av1RoundTrip.PayloadsAreLawful` | src/av1rtppacketizer.cpp:157-220 | over all payloads of a list of units: none exceeds the maximum, W is the number of elements a receiver parses, and a payload starts with a continuation just when the one before is continued, as section 4.4 of the AV1 RTP specification demands |
| `Av1RoundTrip.CarriedIffFollowed` | src/av1rtppacketizer.cpp:157-167 | every unit is carried if and only if each sequence header is directly followed by a unit that is none |
| `Av1RoundTrip.SequenceHeaderIff` | src/av1rtppacketizer.cpp:157-170 | sequence headers are exactly the units of type 1 |
| `Av1RoundTrip.UnfollowedHeaderExample` | src/av1rtppacketizer.cpp:157-167 | a sequence header alone is not carried |
| `Av1RoundTrip.TemporalUnitRoundTrip` | src/av1rtpdepacketizer.cpp:87-213 | a well-formed temporal unit comes back with every unit in order, its size spelled the shortest way, without the delimiter |
| `RtpPacket.BuildIsReadable` | src/rtp.cpp:61-86 | the size functions and accessors locate header fields and payload of a built packet, whatever extension it carries |
| `RtpPacket.LayoutIsReadable` | src/rtp.cpp:31-86 | the same for every packet of section 5.1 of RFC 3550, with any contributing sources, extension and padding |
| `HeaderExtension.WriteHeader` | src/rtp.cpp:133-173 | one- and two-byte element writers patch the block at the offset, or refuse and change nothing |
| `HeaderExtension.WriteHeaders` | src/rtppacketizer.cpp:128-197 | the writes at a running offset |
| `HeaderExtension.WritesFitting` | src/rtp.cpp:133-173 | in a cleared block with the computed space, the acceptable elements stand one behind the other, then zeros |
| `HeaderExtension.ParseEncoded` | src/rtp.cpp:133-160 | the parser of sections 4.2 and 4.3 of RFC 8285 undoes the encoding, whatever padding follows |
| `HeaderExtension.ReceiverFinds` | src/rtp.cpp:133-173 | a receiver finds exactly the acceptable elements, in order |
| `HeaderExtension.FittingIff` | src/rtp.cpp:133-152 | every write succeeds if and only if every element is acceptable |
| `RtpPacketizing.ExtensionSpace` | src/rtppacketizer.cpp:70-104 | the size summed up in one order is the space the writes need in another, plus four, rounded up to words |
| `RtpPacketizing.CarriedIff` | src/rtppacketizer.cpp:52-69 | every configured element is acceptable in the chosen form if and only if a condition on the settings holds; a colour space number above 14 in one-byte form is the gap |
| `RtpPacketizing.ColorSpaceExample` | src/rtppacketizer.cpp:59-69 | a colour space number of 15 alone stays in one-byte form and its element is left out |
| `RtpPacketizing.PlayoutReads` | src/rtppacketizer.cpp:164-169 | the two 12-bit playout delays are read back from their three bytes |
| `RtpPacketizing.WriteExtension` | src/rtppacketizer.cpp:116-198 | the block is sized, cleared and written as specified |
| `RtpPacketizing.RtpPacketizer.Packetize` | src/rtppacketizer.cpp:28-205 | the packet built around extension and payload, seven bits of the payload type, the length field wrapping in 16 bits, the number going up by one modulo 65536 |
| `RtpPacketizing.PayloadIsLocatedIff` | src/rtppacketizer.cpp:119-126 | the header size functions locate the payload if and only if the extension block is at most 2^18 bytes |
| `RtpPacketizing.OversizedBlockExample` | src/rtppacketizer.cpp:119-126 | with a media identification of 2^18 bytes the payload is not found |
| `RtpPacketizing.RtpPacketizer.Outgoing` | src/rtppacketizer.cpp:226-237 | a frame's packets are numbered on contiguously, only the last one marked |
| `RtpPacketizing.PacketIsUnderstood` | src/rtppacketizer.cpp:28-205 | for all settings: fields and payload are found, and an RFC 8285 parser reads exactly the configured elements if and only if the settings allow them, otherwise the allowed ones |
| `RtpPacketizing.SettingsAreRead` | src/rtppacketizer.cpp:28-205 | setting by setting, which number and bytes an RFC 8285 receiver reads from which packet, the orientation from the last one only, that it reads nothing else, and that one-byte headers are used whenever the settings are small enough |
| `RtpPacketizing.OutgoingIsCarried` | src/rtppacketizer.cpp:226-237 | any selection of a frame's packets is what the depacketizer theorems assume |
| `ReorderBuffer.EquivalentIff` | src/rtpdepacketizer.cpp:109-115 | the comparator does not tell two packets apart if and only if their numbers are equal or 32768 apart |
| `ReorderBuffer.CompleteIff` | src/rtpdepacketizer.cpp:76-83 | packets of RFC 3550 are taken, also without payload, and what is cut off in front of the end of its contributing sources is not |
| `ReorderBuffer.VideoDepacketizer.Incoming` | src/rtpdepacketizer.cpp:67-107 | the messages are taken one by one; an exception of the reassembler ends the call and leaves the buffer as it is |
| `ReorderBuffer.ThrowsIff` | src/rtpdepacketizer.cpp:85-103 | over every list of messages, incoming throws if and only if the reassembler throws on a buffer it would be given, and otherwise hands on the results of the steps without exceptions |
| `ReorderBuffer.ExceptionKeepsBuffer` | src/rtpdepacketizer.cpp:88-93 | a buffer on which the reassembler throws is not cleared, so that every later packet of another timestamp meets the same exception |
| `ReorderBuffer.StepKeepsPending` | src/rtpdepacketizer.cpp:85-103 | one message keeps the buffer to one timestamp without a marker, and asks for no mixed frame |
| `ReorderBuffer.NeverMixes` | src/rtpdepacketizer.cpp:67-107 | after every run the buffer shares one timestamp and no marker, and no reassembly mixed timestamps |
| `ReorderBuffer.NothingLostOrTwice` | src/rtpdepacketizer.cpp:67-107 | after every run each complete packet was handed on once, still waits, or was refused |
| `ReorderBuffer.RefusedForEquivalent` | src/rtpdepacketizer.cpp:96 | a packet is refused only for an equivalent one of its own timestamp |
| `ReorderedFrames.AnyOrder` | src/rtpdepacketizer.cpp:67-115 | a frame spanning under 32768 numbers, in any order, with losses and repetitions, its marker last, gives one reassembly of what arrived, in order |
| `ReorderedFrames.SameAsInOrder` | src/rtpdepacketizer.cpp:67-115 | with every packet there the reassembler sees what in-order arrival shows it |
| `ReorderedFrames.StreamComesOut` | src/rtpdepacketizer.cpp:67-115 | over every stream of frames, packets lost, repeated and reordered within their frames, each frame is reassembled once, from what arrived, in order: at its marker or, when that is lost, at the next timestamp |
| `ReorderedFrames.SortedUnique` | src/rtpdepacketizer.cpp:109-115 | a buffer ordered by the comparator is determined by what it holds |
| `VideoPath.StreamIsReassembled` | src/rtpdepacketizer.cpp:67-115 | packets numbered by the packetizer, frame after frame, lost, repeated and reordered, reach the reassembler once per frame as an ordered part |
| `VideoPath.VpStreamArrives` | src/vp8rtpdepacketizer.cpp:68-175 | of any stream of VP8 or VP9 frames through packetizer, network and buffer exactly those come out all of whose packets arrive, in order and without exception |
| `VideoPath.NalStreamArrives` | src/h264rtpdepacketizer.cpp:37-137 | of any stream of H.264 or H.265 frames each is reassembled without exception into prefixes of distinct units of its own, in order, and into exactly its units if all its packets arrive, whether its marker or the next timestamp ended it |
| `VideoPath.Av1StreamArrives` | src/av1rtpdepacketizer.cpp:87-213 | of any stream of AV1 temporal units each whose packets all arrive comes out with each unit in order and a minimal size field |
| `PacketCache.Storage.Store` | src/rtcpnackresponder.cpp:205-226 | list and map stay coherent and change as specified, repeated numbers included |
| `PacketCache.Storage.StorePacket` | src/rtcpnackresponder.cpp:198-203 | packets too short for a header are ignored, all others stored under their own number |
| `PacketCache.Storage.Get` | src/rtcpnackresponder.cpp:191-196 | returns what the map has |
| `PacketCache.Storage.EvictOldest` | src/rtcpnackresponder.cpp:219-225 | the head of the linked list goes together with the map entry under its number |
| `PacketCache.StoreKeepsCoherent` | src/rtcpnackresponder.cpp:198-226 | for every store, also of repeated numbers, the map points into the list and the two are empty together |
| `PacketCache.CacheIsLastPackets` | src/rtcpnackresponder.cpp:186-226 | if numbers are distinct in every window of maxSize + 1 stores, then after any run a packet is found if and only if it is among the last maxSize, and the list is that window |
| `PacketCache.ConsecutiveIsDistinct` | src/rtcpnackresponder.cpp:198-226 | consecutive numbers meet the condition up to maxSize 65535 |
| `PacketCache.StoreIsFoundIff` | src/rtcpnackresponder.cpp:198-226 | in every coherent state, also after repeated numbers, a stored packet is found again if and only if its number was not cached with another packet and the eviction that follows does not take that number |
| `PacketCache.StaysWithinLimitIff` | src/rtcpnackresponder.cpp:217-225 | a store keeps the cache within its limit if and only if the number is cached already, there is room, or the oldest element's number is in the map |
| `PacketCache.RepeatedNumberRun` | src/rtcpnackresponder.cpp:198-226 | storing 1, 1, 2, 1 with room for one packet: the fourth store evicts what it has just stored |
| `Nack.GetSequenceNumbers` | src/rtp.cpp:702-717 | the shifting loop computes the expansion of a part |
| `Nack.NackPacket.AddMissingPacket` | src/rtp.cpp:736-750 | opens a part or sets a bit, and tells whether the packet grew |
| `Nack.RequestsTheList` | src/rtp.cpp:702-750 | whatever the order of the missing numbers, exactly they are requested |
| `Nack.ComesBackIff` | src/rtp.cpp:702-750 | expanding the built parts gives back the list, order and multiplicity included, if and only if each number opens a part or exceeds the one before |
| `Nack.OutOfOrderExample` | src/rtp.cpp:736-750 | 1, 3, 2 comes back as 1, 2, 3 |
| `Nack.ForwardIsInOrder` | src/rtp.cpp:736-750 | lists that ascend, also across a wraparound, meet the condition |
| `Nack.AscendingComesBack` | src/rtp.cpp:702-750 | every strictly ascending list comes back exactly |
| `NackResponder.Incoming` | src/rtcpnackresponder.cpp:73-120 | the scan over all control messages answers exactly the cached packets among the numbers requested, as they are or wrapped as RTX under consecutive numbers |
| `NackResponder.CompoundIsUnderstood` | src/rtcpnackresponder.cpp:84-104 | from any compound RTCP message, with packets of every other pair of packet type and count field in between, exactly the numbers of its generic NACKs are taken, in order, up to where the message breaks off |
| `NackResponder.MessagesAreUnderstood` | src/rtcpnackresponder.cpp:80-104 | from any list of messages exactly what the NACKs in the control messages ask for is taken, in order |
| `NackResponder.NackAsksFor` | src/rtp.cpp:719-750 | the bytes of a NACK built for an ascending list ask for exactly that list |
| `NackResponder.NackService` | src/rtcpnackresponder.cpp:73-120 | coder, scan and cache together: exactly those missing packets that are among the last maxSize are resent, once each, in order |
| `NackResponder.RtxService` | src/rtcpnackresponder.cpp:106-116 | with RTX: what the receiver restores from the answers is exactly those missing packets that are among the last maxSize, once each, in order, the answers numbered consecutively |
| `Rtx.Sender.WrapInRtx` | src/rtcpnackresponder.cpp:129-178 | wraps exactly when a header, a stream and a payload type are there; numbers are used up only by packets sent |
| `Rtx.NormalizePacket` | src/rtp.cpp:803-812 | in place: three fields set, the body moved two bytes forward; throws and changes nothing when too short |
| `Rtx.Receiver.UnwrapRtx` | src/rtcpreceivingsession.cpp:86-118 | nothing, an exception, or the restored packet, as specified |
| `Rtx.WrappedLayout` | src/rtcpnackresponder.cpp:150-175 | a wrapped packet has the layout of section 4 of RFC 4588, everything else in the header kept |
| `Rtx.RestoreWrapped` | src/rtp.cpp:803-812 | restoring a wrapped packet gives the original byte for byte, for any contributing sources and extension |
| `Rtx.RtxIdentity` | src/rtcpreceivingsession.cpp:86-118 | with inverse payload-type maps the receiver restores whatever the sender wraps |
| `RtxAllocation.AddRtxAllocates` | src/description.cpp:482-536 | on a section without RTX the first codecs get distinct unused numbers in 96..127, ascending, as many as there are, and nothing else changes |
| `RtxAllocation.AddRtxGives` | src/description.cpp:482-536 | on any section, with or without RTX: the codecs that need an entry get distinct unused numbers in 96..127, ascending, with their own clock rate or the one asked for, and nothing else changes |
| `RtxAllocation.NeedingIff` | src/description.cpp:500-512 | a codec needs an entry if and only if it is not RTX itself and no entry refers to it |
| `RtxAllocation.AddAgain` | src/description.cpp:482-536 | as long as there are numbers for all, addRtx once more changes nothing |
| `RtxAllocation.WithMapIff` | src/description.cpp:1253-1260 | only an unknown number is added, at the end of the order |
| `RtxAllocation.RtxFound` | src/description.cpp:1324-1333 | each codec finds the number it was given, and only those that were given one |
| `RtxAllocation.InverseIff` | src/rtcpnackresponder.cpp:38-71 | the maps that the two ends build are mutually inverse if and only if the section has no RTX entry or no two payload types share an RTX number |
| `RtxAllocation.SharedRtxExample` | src/rtcpreceivingsession.cpp:60-68 | two codecs with one RTX entry: the maps are not inverse |
| `RtxAllocation.EndsAgree` | src/rtcpreceivingsession.cpp:42-72 | after addRtx on a section without RTX they are |
| `RtxAllocation.DisableUndoesAdd` | src/description.cpp:1262-1350 | disableRtx after addRtx restores the codec list, entries and order |
| `RtxAllocation.RemovedIff` | src/description.cpp:1262-1295 | removing a payload type takes its entry and those whose apt it is, and nothing else |
| `RtxAllocation.DisabledHasNoRtx` | src/description.cpp:1343-1346 | of every section disableRtx leaves no RTX entry, keeps the others as they were, and takes away none that refers to no RTX entry |
| `RtxAllocation.RetransmissionRestores` | src/rtcpreceivingsession.cpp:42-118 | allocation, maps, wrapping and restoring together are the identity on packets |
| `MediaCodecs.GetRtxPayloadType` | src/description.cpp:1324-1333 | the loop finds the lowest entry that refers to the payload type |
| `MediaCodecs.IsRtxEnabled` | src/description.cpp:1335-1341 | whether the section has an RTX entry |
| `MediaCodecs.AvailablePayloadTypes` | src/description.cpp:482-492 | the unused numbers of 96..127, ascending |
| `MediaCodecs.SenderTypes` | src/rtcpnackresponder.cpp:43-62 | the map from primary to RTX numbers, empty unless the section has an RTX entry |
| `MediaCodecs.ReceiverTypes` | src/rtcpreceivingsession.cpp:47-68 | the map from RTX to primary numbers, empty unless the section has an RTX entry |
| `MediaCodecs.Media.AddRtx` | src/description.cpp:493-536 | the section is left as specified |
| `MediaCodecs.Media.RemoveRtpMap` | src/description.cpp:1262-1283 | the entry goes and those that depend on it |
| `MediaCodecs.Media.DisableRtx` | src/description.cpp:1343-1346 | both spellings of the format are removed |
| `SequenceTracking.ReceivingSession.InitSeq` | src/rtcpreceivingsession.cpp:332-340 | the fresh counters |
| `SequenceTracking.ReceivingSession.UpdateSeq` | src/rtcpreceivingsession.cpp:342-393 | the counters after a packet, and whether it is accepted |
| `SequenceTracking.TracksEveryRun` | src/rtcpreceivingsession.cpp:332-393 | for every unbounded run of numbers near the running maximum, with stray packets in between, the 16-bit counters hold the true maximum, its cycles and the number of genuine packets |
| `SequenceTracking.ExtendedMaximum` | src/rtcpreceivingsession.cpp:332-393 | cycles plus maximum equal the true maximum modulo 2^32, counted from the base's cycle |
| `SequenceTracking.AcceptedIffNear` | src/rtcpreceivingsession.cpp:367-390 | within one cycle of the maximum a packet is accepted if and only if it is less than 3000 ahead or less than 100 behind |
| `SequenceTracking.TwoSequentialRestart` | src/rtcpreceivingsession.cpp:376-389 | after two sequential jumps the tracker follows the new numbers, counting from the second |
| `SequenceTracking.FirstPacketUncountedIff` | src/rtcpreceivingsession.cpp:183 | as a session starts from zero counters and initSeq is called only on a resynchronisation, its first packet goes uncounted if and only if its number is not near 0 |
| `Pacing.PacingHandler.Run` | src/pacinghandler.cpp:43-73 | keeps order, counts and budget bounds, records a run that pays for its bytes exactly out of the capped budget, and leaves an empty queue or no budget; a non-empty queue has a run scheduled |
| `Pacing.PacingHandler.Outgoing` | src/pacinghandler.cpp:75-95 | takes packets in order until the queue is full, counts the rest as dropped, and schedules a run |
| `Pacing.PacingHandler.Schedule` | src/pacinghandler.cpp:37-41 | at most one run is scheduled |
| `Pacing.PacingBound` | src/pacinghandler.cpp:43-73 | over any stretch of runs fewer bytes are sent than the budget before, rate times elapsed time, and one largest packet |
| `Pacing.BacklogIsSent` | src/pacinghandler.cpp:53-66 | over any stretch of runs that leave packets waiting, at least what the runs earn, each up to the cap, is sent, less the debt before |
| `Pacing.BacklogEnds` | src/pacinghandler.cpp:53-73 | at a positive rate and interval every queue is emptied: the runs that leave packets waiting, with nothing new to send, are bounded by the waiting bytes over what one pause earns |
| `Pacing.PacingHandler.KeepsThePace` | src/pacinghandler.cpp:43-73 | both bounds for the recorded runs of every handler, whose total is what it has sent |
| `Pacing.PacingHandler.EmptiesTheQueue` | src/pacinghandler.cpp:43-73 | the bound on the runs that leave packets waiting, for every handler |
| `Processor.Processor.Enqueue` | src/impl/processor.hpp:58-72 | hands a task to the pool when none is pending, queues it otherwise |
| `Processor.Processor.Schedule` | src/impl/processor.cpp:22-31 | hands the next task over or clears the pending flag |
| `Processor.TasksRunInOrder` | src/impl/processor.cpp:17-31 | in every interleaving tasks run one at a time in enqueue order, a non-empty queue implies pending, join's condition implies all finished, and unfinished work always has a step to come |
| `DtlsReceive.NoLostWakeUp` | src/impl/dtlstransport.cpp:884-940 | in every interleaving the counter is at most the calls due or about to be, nothing is lost or reordered, and every queued message has a drain to come, timers included, if and only if no start-up without a timer finds a message that nobody will drain |
| `DtlsReceive.StrandedMessage` | src/impl/dtlstransport.cpp:834-855 | a message that arrives between registration and state change, and is looked at in between, is stranded when start sets no timer, and waits for the timer when it does |
| `DtlsReceive.QueueGetsDrained` | src/impl/dtlstransport.cpp:916-940 | from every awake state the existing threads and timers can empty the queue without further input |
| `OpenMessage.OpenRoundTrip` | src/impl/datachannel.cpp:251-310 | processing the bytes of an OPEN recovers label, protocol and effective reliability |
| `OpenMessage.DecodeCut` | src/impl/datachannel.cpp:329-352 | bytes behind an OPEN are not looked at, and every OPEN that is cut off is refused |
| `OpenMessage.EncodedFields` | src/impl/datachannel.cpp:251-310 | the OPEN on the wire by the numbers of section 5.1 of RFC 8832: message type 3, channel types 0, 1 and 2 with the unordered bit, parameter, lengths, label and protocol |
| `DataChannelProtocol.DataChannel.Open` | src/impl/datachannel.cpp:251-310 | takes the transport and sends the OPEN, unless there is no stream or a value is out of range |
| `DataChannelProtocol.DataChannel.ProcessOpenMessage` | src/impl/datachannel.cpp:329-393 | takes over label, protocol and reliability and sends the acknowledgement, marking the channel open only after that; throws without transport or stream or on a malformed message |
| `DataChannelProtocol.DataChannel.IncomingMessage` | src/impl/datachannel.cpp:207-243 | reacts to control, reset and user messages as specified |
| `DataChannelProtocol.DataChannel.Send` | src/impl/datachannel.cpp:181-205 | throws when closed, without transport or stream, or above the size limit; before the channel is open messages go out without its own reliability, afterwards with it |
| `DataChannelProtocol.DataChannel.Close` | src/impl/datachannel.cpp:97-113 | closes the stream once |
| `DataChannelProtocol.OpenMeansAgreed` | src/impl/datachannel.cpp:181-393 | in every run, messages being composed, sent and marked in separate steps over a network that repeats, delays and loses: open implies that the OPEN was processed and that both sides agree on label, protocol and reliability; own reliability is used only after that; each side opens at most once; what is received was sent |
| `DataChannelProtocol.OpenBeforePeer` | src/impl/datachannel.cpp:383-392 | the opening side can be open before its peer is, as the acknowledgement precedes the marking |
| `DataChannelProtocol.HandshakeCompletes` | src/impl/datachannel.cpp:207-393 | from every start with streams, whenever the OPEN can be sent, a run opens both sides, and both can send then |
| `DataChannelProtocol.MessageArrives` | src/impl/datachannel.cpp:181-243 | from every reachable world, what a side that can send hands over is sent with its own reliability if and only if it is open, and is received behind what was there, unless the peer is closed |
| `DataChannelProtocol.AnswerArrives` | src/impl/datachannel.cpp:181-243 | the same in the other direction |
| `DataChannelProtocol.ClosingArrives` | src/impl/datachannel.cpp:97-113 | from every reachable world a side that can send can close both |
| `DataChannelProtocol.ClosingArrivesBack` | src/impl/datachannel.cpp:97-113 | and the other side can |
| `DataChannelProtocol.ClosedIsOver` | src/impl/datachannel.cpp:207-243 | a closed channel stays closed, takes nothing in and sends nothing, whatever happens |

## Left out

- TLS, SRTP, ICE, certificates, SCTP and sockets: layers over foreign libraries.
- Signaling, SDP printing and parsing, the C interface, WebSocket wrappers: plumbing without a law of its own.
- RTCP reports, REMB, the video layers allocation encoder: smaller encoders of the kind already covered; allocation bytes are an input of `RtpPacketizing.Config`.
- The length-prefixed mode of splitFrame: a simple cut at given sizes.
- Probation in updateSeq: the counter starts at 0 and is set only inside its own branch.
- Floating point: clock readings and rates are real numbers, and the ceilings of fragment counts are integer ceilings.
- Logging, random first values and mutexes; message frame information other than payload type and timestamp.
- LEB128 sizes of more than four bytes, whose shifts exceed the integer's width.
- AV1 under packet loss: the depacketizer does not look at sequence numbers, so only lossless reassembly is claimed.
- Av1Packets.Packetizer.FragmentObu: a cached sequence header that does not fit the fragment size is copied out of bounds by the source and required away.
- Av1Packets.Packetizer.Fragment: the same of every sequence header in the temporal unit.
- Fragmentation.Fragments: units that leave no room behind the fragment header, for which the source has no defined result or does not end, and sizes beyond the range of `int`, are required away.
- Fragmentation.GenerateFragments: the same of every unit.
- NackResponder.Incoming: cached packets about to be wrapped whose header announces more than they contain are required away, as in Rtx.Sender.WrapInRtx.
- BitWriting.BitWriter.Write: the store of an unchanged byte when no bits remain is a no-op.
- ReorderBuffer.VideoDepacketizer.Incoming: the ordered set inserts before the first element that is not less; for numbers spanning 32768 or more the comparator is no order and a tree may place elements elsewhere, which the order theorems exclude and the other results do not depend on.
- MediaCodecs.Media.AddRtx: one section; the loop over sections and the audio switch only select. "apt=" parameters are a constructor instead of text, and payload types are 7-bit numbers.
- MediaCodecs.Media.DisableRtx: the stream-source attributes it also removes.
- Rtx.Sender.WrapInRtx: a packet about to be wrapped whose header announces more than it contains is read out of bounds by the source and required away.
- Nack.NackPacket.AddMissingPacket: a number equal to the open part's first is a shift by -1 in the source, which has no defined result, and is required away.
- DataChannelProtocol.DataChannel.IncomingMessage: the receive queue is an unbounded FIFO; callbacks are counted, not run.
- Rtx.Receiver.UnwrapRtx: a packet that ends before its announced extension length field is read out of bounds by the source and required away.
- RtpPacketizing.RtpPacketizer.Packetize: the colour space and capture time bytes and the decision when to send layers allocations are inputs.
- Pacing.PacingHandler.Run: the rate is constant (`setBitrate` between runs is not modelled), and the delay for which the next run is scheduled is an input, the time of that run.
- VpFrames.PartitionsSurvive: a packet without a descriptor that can be read, which the source passes over, is not among the packets of a frame.
- DtlsReceive.NoLostWakeUp: the queue is an unbounded FIFO, the thread pool a bag of calls.
- Processor.TasksRunInOrder: the queue is an unbounded FIFO, the thread pool a bag of tasks.
