/**
  The whole path of a video frame: numbered packets with header extensions
  (src/rtppacketizer.cpp), a network that loses, repeats and reorders them, the reordering
  buffer (src/rtpdepacketizer.cpp) and the codec's reassembler.
 */
module VideoPath {
  import opened Bits
  import opened StartCode
  import opened RtpPacket
  import opened SequenceCheck
  import opened RtpPacketizing
  import opened ReorderBuffer
  import opened ReorderedFrames
  import VpCodec
  import VpFrames
  import NalCodec
  import Fragmentation
  import NalFrames
  import NalDepacketizer
  import NalAssembly
  import Av1Obu
  import Av1Packets
  import Av1RoundTrip
  import opened Options

  ghost predicate Sendable(h: Header, configs: seq<Config>, payloads: seq<Bytes>) {
    && h.payloadType < 128 && 0 < |payloads| < 32768 && |configs| == |payloads|
    && forall i :: 0 <= i < |payloads| ==> Packetizable(configs[i], i == |payloads| - 1)
  }

  /** The packets of a frame, in transmission order. */
  ghost function Packets(h: Header, configs: seq<Config>, payloads: seq<Bytes>): (ps: seq<Bytes>)
    requires Sendable(h, configs, payloads)
    ensures |ps| == |payloads|
    ensures forall i :: 0 <= i < |ps| ==> ps[i] == FramePacket(h, configs, payloads, i)
  {
    seq(|payloads|, i requires 0 <= i < |payloads| => FramePacket(h, configs, payloads, i))
  }

  lemma PacketFields(h: Header, configs: seq<Config>, payloads: seq<Bytes>, i: nat)
    requires Sendable(h, configs, payloads) && i < |payloads|
    ensures var p := FramePacket(h, configs, payloads, i);
            && Complete(p) && Timestamp(p) == h.timestamp && Offset(h.seqNumber, p) == i
            && (Marker(p) <==> i == |payloads| - 1)
  {
    var mark := i == |payloads| - 1;
    hide Packetizable, ExtensionOf, Build, Marker, Timestamp, SeqNumber;
    PacketHeader(Header(h.payloadType, (h.seqNumber + i) % 65536, h.timestamp, h.ssrc, mark), configs[i], payloads[i]);
    Distance(h.seqNumber, i);
  }

  lemma Distance(first: U16, i: nat)
    requires i < 65536
    ensures ((first + i) % 65536 - first) % 65536 == i
  {
  }

  /** They form a frame in the sense of the reordering buffer. */
  lemma PacketsFormFrame(h: Header, configs: seq<Config>, payloads: seq<Bytes>)
    requires Sendable(h, configs, payloads)
    ensures IsFrame(h.seqNumber, Packets(h, configs, payloads))
  {
    var ps := Packets(h, configs, payloads);
    hide FramePacket, Packets, Sendable, Offset, Marker, Timestamp, FixedSize;
    forall i | 0 <= i < |ps|
      ensures Complete(ps[i]) && Timestamp(ps[i]) == h.timestamp && Offset(h.seqNumber, ps[i]) == i
      ensures Marker(ps[i]) <==> i == |ps| - 1
    {
      PacketFields(h, configs, payloads, i);
    }
  }

  /** Where in the frame the packets are that have arrived. */
  function PresentAt(f: seq<Bytes>, arrivals: seq<Bytes>): (at: seq<nat>)
    ensures |at| <= |f| && forall i :: 0 <= i < |at| ==> at[i] < |f|
  {
    if f == [] then []
    else
      var n := |f| - 1;
      PresentAt(f[..n], arrivals) + (if f[n] in arrivals then [n] else [])
  }

  lemma {:induction false} PresentAtMeans(f: seq<Bytes>, arrivals: seq<Bytes>)
    ensures var at, r := PresentAt(f, arrivals), Present(f, arrivals);
            && |r| == |at|
            && (forall i :: 0 <= i < |at| ==> r[i] == f[at[i]])
            && (forall i, j :: 0 <= i < j < |at| ==> at[i] < at[j])
            && (|at| == |f| <==> forall p :: p in f ==> p in arrivals)
  {
    if f != [] {
      var n := |f| - 1;
      PresentAtMeans(f[..n], arrivals);
      assert f == f[..n] + [f[n]];
    }
  }

  lemma PartPositions(f: seq<Bytes>, all: seq<Bytes>)
    requires 0 < |f| <= 65536 && Present(f, all) != []
    ensures var at, r := PresentAt(f, all), Present(f, all);
            && Positions(|f|, at) && |r| == |at|
            && (forall i :: 0 <= i < |at| ==> r[i] == f[at[i]])
            && (|at| == |f| <==> forall p :: p in f ==> p in all)
  {
    PresentAtMeans(f, all);
    hide Present;
  }

  lemma CarriedPart(h: Header, configs: seq<Config>, payloads: seq<Bytes>, at: seq<nat>, part: seq<Bytes>)
    requires Sendable(h, configs, payloads) && |at| == |part|
    requires forall i :: 0 <= i < |at| ==> at[i] < |payloads| && part[i] == Packets(h, configs, payloads)[at[i]]
    ensures Carries(part, payloads, h.seqNumber, at)
  {
    var ps := Packets(h, configs, payloads);
    hide FramePacket, Packetizable, Carries, Packets;
    forall i | 0 <= i < |at|
      ensures part[i] == FramePacket(h, configs, payloads, at[i])
    {
      assert part[i] == ps[at[i]];
    }
    OutgoingIsCarried(h, configs, payloads, at, part);
  }

  lemma CarriedIsReadable(packets: seq<Bytes>, payloads: seq<Bytes>, first: nat, at: seq<nat>)
    requires Carries(packets, payloads, first, at)
    ensures AllReadable(packets)
  {
    hide Readable, SeqNumber, Marker, Payload;
  }

  // ---------------------------------------------------------------- one frame

  /** A frame as it is sent, and what the network makes of it: the order of arrival, and whether the marked packet comes. */
  datatype Sent = Sent(h: Header, configs: seq<Config>, payloads: seq<Bytes>, arrivals: seq<Bytes>, marked: bool)

  ghost predicate IsSent(x: Sent) {
    && Sendable(x.h, x.configs, x.payloads)
    && (x.marked || x.arrivals != [])
    && var ps := Packets(x.h, x.configs, x.payloads);
    forall p :: p in x.arrivals ==> p in ps[..|ps| - 1]
  }

  ghost function DeliveryOf(x: Sent): (d: Delivery)
    requires IsSent(x)
    ensures Valid(d)
  {
    PacketsFormFrame(x.h, x.configs, x.payloads);
    Delivery(x.h.seqNumber, Packets(x.h, x.configs, x.payloads), x.arrivals, x.marked)
  }

  /** What the reassembler gets of the frame. */
  ghost function PartOf(x: Sent): seq<Bytes>
    requires IsSent(x)
  {
    Part(DeliveryOf(x))
  }

  ghost predicate AllArrived(x: Sent)
    requires IsSent(x)
  {
    forall p :: p in DeliveryOf(x).frame ==> p in Whole(DeliveryOf(x))
  }

  /** Where in the frame the part is. */
  ghost function Places(x: Sent): seq<nat>
    requires IsSent(x)
  {
    PresentAt(DeliveryOf(x).frame, Whole(DeliveryOf(x)))
  }

  /** The part that arrives carries its payloads, in order, and is the whole just when everything arrives. */
  lemma PartIsCarried(x: Sent)
    requires IsSent(x)
    ensures Positions(|x.payloads|, Places(x)) && Carries(PartOf(x), x.payloads, x.h.seqNumber, Places(x))
    ensures AllReadable(PartOf(x))
    ensures |Places(x)| == |x.payloads| <==> AllArrived(x)
  {
    var d := DeliveryOf(x);
    PartIsFrames(d);
    hide Valid, IsFrame, Carries, Present, PresentAt, Packets, Whole, Packetizable;
    PartPositions(d.frame, Whole(d));
    CarriedPart(x.h, x.configs, x.payloads, Places(x), PartOf(x));
    CarriedIsReadable(PartOf(x), x.payloads, x.h.seqNumber, Places(x));
  }

  lemma CompleteIsAll(x: Sent)
    requires IsSent(x) && AllArrived(x)
    ensures Carries(PartOf(x), x.payloads, x.h.seqNumber, All(|x.payloads|))
  {
    PartIsCarried(x);
    hide IsSent, AllArrived, PartOf, Places, Carries, Positions;
    AsManyIsAll(|x.payloads|, Places(x));
  }

  /** Without its marked packet a frame is not complete. */
  lemma UnmarkedIsPartial(x: Sent)
    requires IsSent(x) && !x.marked
    ensures !AllArrived(x)
  {
    var d := DeliveryOf(x);
    var n := |d.frame| - 1;
    assert d.arrivals + [] == d.arrivals;
    assert d.frame[n] !in d.frame[..n] by {
      assert Sorted(d.first, d.frame);
      hide Offset;
      assert forall i :: 0 <= i < n ==> Offset(d.first, d.frame[i]) < Offset(d.first, d.frame[n]);
    }
    assert d.frame[n] in d.frame;
  }

  // ---------------------------------------------------------------- streams of frames

  ghost predicate IsStream(xs: seq<Sent>) {
    && (forall k :: 0 <= k < |xs| ==> IsSent(xs[k]))
    && forall k :: 0 < k < |xs| ==> xs[k - 1].h.timestamp != xs[k].h.timestamp
  }

  ghost function Deliveries(xs: seq<Sent>): (ds: seq<Delivery>)
    requires forall k :: 0 <= k < |xs| ==> IsSent(xs[k])
    ensures |ds| == |xs| && forall k :: 0 <= k < |xs| ==> ds[k] == DeliveryOf(xs[k]) && Valid(ds[k])
  {
    seq(|xs|, k requires 0 <= k < |xs| => DeliveryOf(xs[k]))
  }

  lemma StampOf(x: Sent, p: Bytes)
    requires IsSent(x) && p in DeliveryOf(x).frame
    ensures |p| >= 12 && Timestamp(p) == x.h.timestamp
  {
    hide FramePacket, Timestamp, FixedSize, Offset, Marker;
    var i :| 0 <= i < |DeliveryOf(x).frame| && DeliveryOf(x).frame[i] == p;
    PacketFields(x.h, x.configs, x.payloads, i);
  }

  lemma NeighboursDiffer(x: Sent, y: Sent)
    requires IsSent(x) && IsSent(y) && x.h.timestamp != y.h.timestamp
    ensures Follows(DeliveryOf(x), DeliveryOf(y))
  {
    hide IsSent, Valid, DeliveryOf, Timestamp;
    forall p, q | p in DeliveryOf(x).frame && q in DeliveryOf(y).frame
      ensures |p| >= 12 && |q| >= 12 && Timestamp(p) != Timestamp(q)
    {
      StampOf(x, p);
      StampOf(y, q);
    }
  }

  /** Through network and buffer every frame is reassembled once, from the part that arrived, in order. */
  lemma StreamIsReassembled(xs: seq<Sent>)
    requires IsStream(xs)
    ensures var ds := Deliveries(xs); Run([], Stream(ds)) == (Left(ds), Ended(ds))
  {
    hide IsSent, DeliveryOf, Valid, Follows;
    var ds := Deliveries(xs);
    forall k | 0 < k < |ds|
      ensures Follows(ds[k - 1], ds[k])
    {
      NeighboursDiffer(xs[k - 1], xs[k]);
    }
    StreamComesOut(ds);
  }

  // ---------------------------------------------------------------- VP8 and VP9

  /** The frames that are sent. */
  ghost predicate VpSent(vp: VpCodec.Vp, max: nat, frame: Bytes, x: Sent) {
    vp.Sends(frame, max) && IsSent(x) && x.payloads == VpFrames.Fragments(vp, frame, max)
  }

  ghost predicate VpStream(vp: VpCodec.Vp, max: nat, frames: seq<Bytes>, xs: seq<Sent>) {
    && |frames| == |xs| && IsStream(xs)
    && forall k :: 0 <= k < |xs| ==> VpSent(vp, max, frames[k], xs[k])
  }

  /** The depacketizer's `reassemble`. */
  ghost function VpReassemble(vp: VpCodec.Vp, packets: seq<Bytes>): Reassembly<Bytes> {
    if !AllReadable(packets) then Throws
    else
      match VpFrames.Reassembled(vp, packets)
      case NoFrame => NoFrame
      case Frame(b) => Made(b)
  }

  ghost function VpReassembler(vp: VpCodec.Vp): seq<Bytes> -> Reassembly<Bytes> {
    packets => VpReassemble(vp, packets)
  }

  /** A frame of which any part arrives: itself if the part is the whole, nothing otherwise. */
  lemma VpPart(vp: VpCodec.Vp, max: nat, frame: Bytes, x: Sent)
    requires VpSent(vp, max, frame, x)
    ensures VpReassemble(vp, PartOf(x)) == if AllArrived(x) then Made(frame) else NoFrame
  {
    PartIsCarried(x);
    hide IsSent, AllArrived, PartOf, Places, Carries, Positions, VpFrames.Fragments, VpFrames.Reassembled, AllReadable;
    VpFrames.AllOrNothing(vp, frame, max, x.h.seqNumber, Places(x), PartOf(x));
  }

  /** The frames all of whose packets arrived, in order. */
  ghost function CompleteOnes(frames: seq<Bytes>, xs: seq<Sent>): seq<Output<Bytes>>
    requires |frames| == |xs| && forall k :: 0 <= k < |xs| ==> IsSent(xs[k])
  {
    if xs == [] then []
    else
      var n := |xs| - 1;
      CompleteOnes(frames[..n], xs[..n]) + (if AllArrived(xs[n]) then [Frame(frames[n])] else [])
  }

  /** The reassemblies throw nothing and deliver exactly the complete frames. */
  ghost predicate VpDelivers(vp: VpCodec.Vp, frames: seq<Bytes>, xs: seq<Sent>, actions: seq<Action>) {
    && |frames| == |xs| && (forall k :: 0 <= k < |xs| ==> IsSent(xs[k]))
    && Results(VpReassembler(vp), actions) == CompleteOnes(frames, xs)
    && forall a :: a in actions ==> !Raises(VpReassembler(vp), a)
  }

  lemma {:induction false} VpResults(vp: VpCodec.Vp, max: nat, frames: seq<Bytes>, xs: seq<Sent>)
    requires |frames| == |xs| && forall k :: 0 <= k < |xs| ==> IsSent(xs[k])
    requires forall k :: 0 <= k < |xs| ==> VpSent(vp, max, frames[k], xs[k])
    ensures VpDelivers(vp, frames, xs, Frames(Deliveries(xs)))
    decreases |xs|
  {
    var r := VpReassembler(vp);
    hide VpReassemble, Part, Valid, DeliveryOf, AllArrived;
    if xs == [] {
      NoFrames();
      NoActions(r);
    } else {
      var n := |xs| - 1;
      VpResults(vp, max, frames[..n], xs[..n]);
      var ds := Deliveries(xs);
      assert ds[..n] == Deliveries(xs[..n]);
      FramesSnoc(ds);
      VpPart(vp, max, frames[n], xs[n]);
      hide VpSent, Frames;
      ResultsMore(r, Frames(ds[..n]), [Reassemble(Part(ds[n]))]);
      ResultsOne(r, Reassemble(Part(ds[n])));
    }
  }

  /** The frames that have been ended; one that still waits is not complete. */
  lemma VpEnded(vp: VpCodec.Vp, max: nat, frames: seq<Bytes>, xs: seq<Sent>)
    requires |frames| == |xs| && forall k :: 0 <= k < |xs| ==> IsSent(xs[k])
    requires forall k :: 0 <= k < |xs| ==> VpSent(vp, max, frames[k], xs[k])
    ensures VpDelivers(vp, frames, xs, Ended(Deliveries(xs)))
  {
    hide VpDelivers, IsSent, VpSent, Frames, Ended, AllArrived, Valid;
    EndedIs(xs);
    if xs == [] || xs[|xs| - 1].marked {
      VpResults(vp, max, frames, xs);
    } else {
      var n := |xs| - 1;
      VpResults(vp, max, frames[..n], xs[..n]);
      UnmarkedIsPartial(xs[n]);
      LastIsMissing(vp, frames, xs, Ended(Deliveries(xs)));
    }
  }

  lemma EndedIs(xs: seq<Sent>)
    requires forall k :: 0 <= k < |xs| ==> IsSent(xs[k])
    ensures Ended(Deliveries(xs)) ==
            Frames(Deliveries(if xs == [] || xs[|xs| - 1].marked then xs else xs[..|xs| - 1]))
  {
    hide IsSent, DeliveryOf, Frames, Valid;
    if xs != [] {
      var n := |xs| - 1;
      MarkOf(xs[n]);
      assert Deliveries(xs)[..n] == Deliveries(xs[..n]);
    }
  }

  lemma LastIsMissing(vp: VpCodec.Vp, frames: seq<Bytes>, xs: seq<Sent>, actions: seq<Action>)
    requires |frames| == |xs| && xs != [] && forall k :: 0 <= k < |xs| ==> IsSent(xs[k])
    requires !AllArrived(xs[|xs| - 1]) && VpDelivers(vp, frames[..|xs| - 1], xs[..|xs| - 1], actions)
    ensures VpDelivers(vp, frames, xs, actions)
  {
    hide IsSent, AllArrived, Results, Raises;
  }

  lemma MarkOf(x: Sent)
    requires IsSent(x)
    ensures DeliveryOf(x).marked == x.marked
  {
  }

  /**
    Any number of VP8 or VP9 frames through packetizer, network and buffer, packets lost, repeated and
    reordered within their frames: exactly the frames all of whose packets arrive come out, in order.
   */
  lemma VpStreamArrives(vp: VpCodec.Vp, max: nat, frames: seq<Bytes>, xs: seq<Sent>)
    requires VpStream(vp, max, frames, xs)
    ensures var ds := Deliveries(xs);
            TriedAll(VpReassembler(vp), [], Stream(ds)) ==
            Taken(Left(ds), CompleteOnes(frames, xs), false)
  {
    hide VpReassemble, VpReassembler, Valid, DeliveryOf, IsSent, VpSent, TriedAll, Run, Stream, Left, Ended, Raises, Results, CompleteOnes;
    var r := VpReassembler(vp);
    StreamIsReassembled(xs);
    VpEnded(vp, max, frames, xs);
    ThrowsIff(r, [], Stream(Deliveries(xs)));
  }

  // ---------------------------------------------------------------- H.264 and H.265

  /** The payloads that a frame's units are sent in. */
  ghost function NalPayloads(c: NalCodec.Codec, sep: Separator, frame: Bytes, max: nat): seq<Bytes>
    requires NalFrames.AllPass(c, Split(sep, frame)) && Fragmentation.AllCuttable(c, Split(sep, frame), max)
  {
    Fragmentation.Payloads(Fragmentation.CutAll(c, Split(sep, frame), max))
  }

  ghost predicate NalSent(c: NalCodec.Codec, sep: Separator, max: nat, frame: Bytes, x: Sent) {
    && NalFrames.AllPass(c, Split(sep, frame)) && Fragmentation.AllCuttable(c, Split(sep, frame), max)
    && x.payloads == NalPayloads(c, sep, frame, max)
  }

  /** The reassembled bytes hold exactly `delivered`: prefixes of distinct units in order, all of them if `complete`. */
  ghost predicate NalGives(c: NalCodec.Codec, sep: Separator, frame: Bytes, packets: seq<Bytes>, complete: bool, delivered: seq<Bytes>, who: seq<nat>) {
    && AllReadable(packets)
    && NalDepacketizer.Reassembled(c, sep, packets) == NalDepacketizer.Frame(Joined(sep, delivered))
    && NalAssembly.Survives(Split(sep, frame), delivered, who)
    && (delivered != [] ==> Split(sep, Joined(sep, delivered)) == delivered)
    && (complete ==> delivered == Split(sep, frame))
  }

  ghost predicate NalOutcome(c: NalCodec.Codec, sep: Separator, frame: Bytes, packets: seq<Bytes>, complete: bool) {
    exists delivered, who :: NalGives(c, sep, frame, packets, complete, delivered, who)
  }

  lemma WholeSurvives(units: seq<Bytes>)
    ensures NalAssembly.Survives(units, units, All(|units|))
  {
  }

  /** A frame of which any part arrives. */
  lemma NalPart(c: NalCodec.Codec, sep: Separator, max: nat, frame: Bytes, x: Sent) returns (delivered: seq<Bytes>, who: seq<nat>)
    requires IsSent(x) && NalSent(c, sep, max, frame, x)
    ensures NalGives(c, sep, frame, PartOf(x), AllArrived(x), delivered, who)
  {
    assert |x.payloads| <= 65536;
    PartIsCarried(x);
    if AllArrived(x) {
      CompleteIsAll(x);
      hide IsSent, AllArrived, PartOf, Places, Carries, Positions, Split, Joined, AllReadable, NalAssembly.Survives;
      hide Fragmentation.Payloads, Fragmentation.CutAll, NalDepacketizer.Reassembled, NalFrames.AllPass, Fragmentation.AllCuttable;
      NalDepacketizer.EndToEnd(c, sep, frame, max, x.h.seqNumber, PartOf(x));
      delivered, who := Split(sep, frame), All(|Split(sep, frame)|);
      WholeSurvives(delivered);
    } else {
      hide IsSent, AllArrived, PartOf, Places, Carries, Positions, Split, Joined, AllReadable, NalAssembly.Survives;
      hide Fragmentation.Payloads, Fragmentation.CutAll, NalDepacketizer.Reassembled, NalFrames.AllPass, Fragmentation.AllCuttable;
      delivered, who := NalDepacketizer.LossEndToEnd(c, sep, frame, max, x.h.seqNumber, Places(x), PartOf(x));
    }
  }

  /**
    Any number of H.264 or H.265 frames: each is reassembled once and without exception, into
    prefixes of distinct units of its own in order, and into exactly its units if all its packets arrive.
   */
  lemma NalStreamArrives(c: NalCodec.Codec, sep: Separator, max: nat, frames: seq<Bytes>, xs: seq<Sent>)
    requires |frames| == |xs| && IsStream(xs) && forall k :: 0 <= k < |xs| ==> NalSent(c, sep, max, frames[k], xs[k])
    ensures var ds := Deliveries(xs); Run([], Stream(ds)) == (Left(ds), Ended(ds))
    ensures forall k :: 0 <= k < |xs| ==> NalOutcome(c, sep, frames[k], PartOf(xs[k]), AllArrived(xs[k]))
  {
    hide IsSent, NalSent, NalOutcome, Run, Stream, Left, Ended, AllArrived, PartOf;
    StreamIsReassembled(xs);
    forall k | 0 <= k < |xs|
      ensures NalOutcome(c, sep, frames[k], PartOf(xs[k]), AllArrived(xs[k]))
    {
      NalPartOutcome(c, sep, max, frames[k], xs[k]);
    }
  }

  lemma NalPartOutcome(c: NalCodec.Codec, sep: Separator, max: nat, frame: Bytes, x: Sent)
    requires IsSent(x) && NalSent(c, sep, max, frame, x)
    ensures NalOutcome(c, sep, frame, PartOf(x), AllArrived(x))
  {
    hide IsSent, NalSent, NalGives, AllArrived, PartOf;
    var delivered, who := NalPart(c, sep, max, frame, x);
  }

  // ---------------------------------------------------------------- AV1

  /** What must hold of an AV1 temporal unit for all of it to be carried, and the payloads it is sent in. */
  ghost predicate Av1Sent(max: nat, delimited: bool, items: seq<Av1Obu.Item>, x: Sent) {
    && items != [] && Av1Obu.AllValid(items) && Av1RoundTrip.Unambiguous(delimited, items) && max >= 2
    && Av1RoundTrip.UnitsFine(Av1Obu.Bares(items), max) && Av1RoundTrip.HeadersFollowed(Av1Obu.Bares(items))
    && x.payloads == Av1Packets.Packetized(Av1Obu.Bares(items), None, max, []).payloads
  }

  ghost predicate Av1Gives(packets: seq<Bytes>, r: Av1Packets.Outcome) {
    AllReadable(packets) && Av1Packets.Reassembled(Av1Packets.TemporalUnit, packets) == r
  }

  lemma CarriedAll(packets: seq<Bytes>, payloads: seq<Bytes>, first: nat)
    requires Carries(packets, payloads, first, All(|payloads|))
    ensures Av1RoundTrip.CarriesAll(packets, payloads)
  {
    hide Readable, SeqNumber, Marker, Payload;
    forall i | 0 <= i < |packets|
      ensures Readable(packets[i]) && Payload(packets[i]) == payloads[i]
    {
      assert All(|payloads|)[i] == i;
    }
  }

  lemma Av1Whole(max: nat, delimited: bool, items: seq<Av1Obu.Item>, x: Sent)
    requires IsSent(x) && Av1Sent(max, delimited, items, x) && AllArrived(x)
    ensures Av1Gives(PartOf(x), Av1Packets.Frame(Av1RoundTrip.CanonicalAll(items)))
  {
    PartIsCarried(x);
    CompleteIsAll(x);
    hide IsSent, AllArrived, PartOf, Places, Carries, Positions, AllReadable, Av1Packets.Packetized, Av1Packets.Reassembled;
    hide Av1RoundTrip.UnitsFine, Av1RoundTrip.HeadersFollowed, Av1RoundTrip.Unambiguous, Av1Obu.AllValid, Av1RoundTrip.CarriesAll;
    CarriedAll(PartOf(x), x.payloads, x.h.seqNumber);
    Av1RoundTrip.TemporalUnitRoundTrip(delimited, items, max, PartOf(x));
  }

  /**
    Any number of AV1 temporal units: each is reassembled once, and one whose packets all arrive, in any
    order, comes out with each of its units in order, the size of each spelled the shortest way.
   */
  lemma Av1StreamArrives(max: nat, delimited: seq<bool>, items: seq<seq<Av1Obu.Item>>, xs: seq<Sent>)
    requires |delimited| == |items| == |xs| && IsStream(xs)
    requires forall k :: 0 <= k < |xs| ==> Av1Sent(max, delimited[k], items[k], xs[k])
    ensures var ds := Deliveries(xs); Run([], Stream(ds)) == (Left(ds), Ended(ds))
    ensures forall k :: 0 <= k < |xs| && AllArrived(xs[k]) ==>
              Av1Gives(PartOf(xs[k]), Av1Packets.Frame(Av1RoundTrip.CanonicalAll(items[k])))
  {
    hide IsSent, Av1Sent, Av1Gives, Run, Stream, Left, Ended, AllArrived, PartOf;
    StreamIsReassembled(xs);
    forall k | 0 <= k < |xs| && AllArrived(xs[k])
      ensures Av1Gives(PartOf(xs[k]), Av1Packets.Frame(Av1RoundTrip.CanonicalAll(items[k])))
    {
      Av1Whole(max, delimited[k], items[k], xs[k]);
    }
  }
}
