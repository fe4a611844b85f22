/**
  The dependency descriptor on its way: `outgoing` and `packetize` of src/rtppacketizer.cpp mark the
  first and the last packet of a frame in the descriptor's context, write it, and send it as a
  header extension element.
 */
module DescribedPackets {
  import opened Options
  import opened Bits
  import opened RtpPacket
  import opened HeaderExtension
  import opened RtpPacketizing
  import DependencyDescriptor
  import DescriptorWriter
  import DescriptorRoundTrip
  import DescriptorTransmission
  import BitWriting

  type Context = DependencyDescriptor.Context

  /** The context for packet `i` of `n`. */
  function ForPacket(c: Context, i: nat, n: nat): Context {
    c.(descriptor := c.descriptor.(startOfFrame := i == 0, endOfFrame := i == n - 1))
  }

  lemma StillValid(c: Context, i: nat, n: nat)
    requires DependencyDescriptor.ValidContext(c)
    ensures DependencyDescriptor.ValidContext(ForPacket(c, i, n))
  {
    hide DependencyDescriptor.ValidStructure, DependencyDescriptor.Attachable;
  }

  /** The writer accepts the context and its size can be counted. */
  ghost predicate Writable(c: Context) {
    && DependencyDescriptor.ValidContext(c) && DependencyDescriptor.Accepted(c)
    && |DependencyDescriptor.Encoding(c)| <= BitWriting.SIZE_MAX
  }

  /** The settings `c` with the written descriptor `x` filled in. */
  ghost predicate Described(c: Config, x: Context, r: Config) {
    r.descriptor.Some? && r == c.(descriptor := r.descriptor) && DescriptorTransmission.Conveys(r.descriptor.value, x)
  }

  /**
    `outgoing` with a dependency descriptor context: throws exactly when the descriptor of some
    packet cannot be written; otherwise every packet carries the descriptor of its place.
   */
  method Outgoing(packetizer: RtpPacketizer, c: Context, configs: seq<Config>, payloads: seq<Bytes>)
    returns (packets: Option<seq<Bytes>>, ghost filled: seq<Config>)
    requires DependencyDescriptor.ValidContext(c)
    requires |configs| == |payloads| && forall i :: 0 <= i < |configs| ==> Shaped(configs[i])
    modifies packetizer`sequenceNumber
    ensures packets.Some? <==> forall i :: 0 <= i < |payloads| ==> Writable(ForPacket(c, i, |payloads|))
    ensures packets.Some? ==>
              && |packets.value| == |filled| == |payloads|
              && packetizer.sequenceNumber == (old(packetizer.sequenceNumber) + |payloads|) % 65536
              && (forall i :: 0 <= i < |payloads| ==> Described(configs[i], ForPacket(c, i, |payloads|), filled[i]))
              && forall i :: 0 <= i < |payloads| ==>
                   packets.value[i] == Packet(packetizer, old(packetizer.sequenceNumber), i, |payloads|, filled[i], payloads[i])
  {
    hide DependencyDescriptor.ValidContext, Described, Writable, Packet, ForPacket, Shaped;
    var n := |payloads|;
    var sent: seq<Bytes> := [];
    filled := [];
    for i := 0 to n
      invariant |sent| == |filled| == i && packetizer.sequenceNumber == (old(packetizer.sequenceNumber) + i) % 65536
      invariant forall j :: 0 <= j < i ==> Writable(ForPacket(c, j, n)) && Described(configs[j], ForPacket(c, j, n), filled[j])
      invariant forall j :: 0 <= j < i ==>
                  sent[j] == Packet(packetizer, old(packetizer.sequenceNumber), j, n, filled[j], payloads[j])
    {
      StillValid(c, i, n);
      var p, config := PacketizeDescribed(packetizer, ForPacket(c, i, n), configs[i], payloads[i], i, n, old(packetizer.sequenceNumber));
      if p.None? {
        return None, filled;
      }
      sent := sent + [p.value];
      filled := filled + [config];
    }
    return Some(sent), filled;
  }

  /** `packetize` with the context of one packet. */
  method PacketizeDescribed(packetizer: RtpPacketizer, x: Context, c: Config, payload: Bytes, i: nat, n: nat, ghost first: U16)
    returns (p: Option<Bytes>, ghost filled: Config)
    requires DependencyDescriptor.ValidContext(x) && Shaped(c)
    requires packetizer.sequenceNumber == (first + i) % 65536
    modifies packetizer`sequenceNumber
    ensures p.Some? <==> Writable(x)
    ensures p.None? ==> packetizer.sequenceNumber == old(packetizer.sequenceNumber)
    ensures p.Some? ==>
              && packetizer.sequenceNumber == (first + i + 1) % 65536
              && Described(c, x, filled) && p.value == Packet(packetizer, first, i, n, filled, payload)
  {
    hide Build, ExtensionOf, DescriptorTransmission.Conveys, DependencyDescriptor.ValidContext;
    hide DependencyDescriptor.Accepted, DependencyDescriptor.Encoding, DependencyDescriptor.HasLayer;
    filled := c;
    var descriptor := DescriptorTransmission.Pack(x);
    if descriptor.None? {
      return None, filled;
    }
    var config := c.(descriptor := descriptor);
    FilledIn(c, x, descriptor.value);
    filled := config;
    var packet := packetizer.Packetize(config, payload, i == n - 1);
    p := Some(packet);
  }

  lemma FilledIn(c: Config, x: Context, b: Bytes)
    requires Shaped(c) && DescriptorTransmission.Conveys(b, x)
    ensures var r := c.(descriptor := Some(b)); Shaped(r) && Described(c, x, r)
  {
    hide DescriptorTransmission.Conveys;
  }

  /** Packet `i` of `n`, built from its own settings. */
  ghost function Packet(packetizer: RtpPacketizer, first: U16, i: nat, n: nat, c: Config, payload: Bytes): Bytes
    reads packetizer`timestamp
  {
    Build(Header(packetizer.payloadType % 128, (first + i) % 65536, packetizer.timestamp, packetizer.ssrc, i == n - 1),
          ExtensionOf(c, i == n - 1), payload)
  }

  lemma DescriptorIsElement(c: Config, mark: bool)
    requires c.descriptor.Some?
    ensures Element(c.descriptorId, c.descriptor.value) in Elements(c, mark)
  {
    hide SetsOrientation, PlayoutBytes, SetsCapture, Orientation, Allocation, Playout, Color, Capture;
    var e := Element(c.descriptorId, c.descriptor.value);
    var last := Allocation(c) + (Playout(c) + (Color(c) + Capture(c)));
    assert e in Optional(c.descriptorId, c.descriptor) + last;
    assert e in Optional(c.ridId, c.rid) + (Optional(c.descriptorId, c.descriptor) + last);
    assert e in Optional(c.midId, c.mid) + (Optional(c.ridId, c.rid) + (Optional(c.descriptorId, c.descriptor) + last));
  }

  type Structure = DependencyDescriptor.Structure

  /** What a receiver that knows `known` reads from a descriptor's bytes. */
  ghost predicate Tells(d: Bytes, c: Context, known: Option<Structure>, first: bool, last: bool) {
    var r := DescriptorRoundTrip.Decode(known, AllBits(d));
    && r.Parsed? && r.value.startOfFrame == first && r.value.endOfFrame == last
    && r.value.frameNumber == c.descriptor.frameNumber
    && r.value.frame.dtis == c.descriptor.frame.dtis && r.value.frame.frameDiffs == c.descriptor.frame.frameDiffs
  }

  ghost predicate CanRead(c: Context, known: Option<Structure>) {
    DependencyDescriptor.ValidContext(c) && DependencyDescriptor.HasLayer(c) && DescriptorRoundTrip.CanRead(c, known)
  }

  /**
    Packet `i` of a frame of `n` announces its configured elements, among them one from which every
    receiver that holds the structure, or is being given it, recovers the frame's descriptor, marked
    as start just in the first packet and as end just in the last.
   */
  lemma DescriptorArrives(h: Header, x: Context, known: Option<Structure>, i: nat, n: nat, c: Config, r: Config, payload: Bytes)
    requires h.payloadType < 128 && h.marker == (i == n - 1)
    requires Described(c, ForPacket(x, i, n), r) && Packetizable(r, h.marker) && Carried(r, h.marker)
    requires CanRead(ForPacket(x, i, n), known)
    ensures var p := Build(h, ExtensionOf(r, h.marker), payload);
            var e := Element(r.descriptorId, r.descriptor.value);
            && Announces(p, TwoByte(r, h.marker), Elements(r, h.marker)) && e in Elements(r, h.marker)
            && Tells(e.value, ForPacket(x, i, n), known, i == 0, i == n - 1)
  {
    Told(r.descriptor.value, ForPacket(x, i, n), known);
    hide Described, Packetizable, Carried, Announces, ExtensionOf, Elements, TwoByte, Build, Tells, Payload;
    PacketIsUnderstood(h, r, payload);
    DescriptorIsElement(r, h.marker);
  }

  lemma Told(d: Bytes, c: Context, known: Option<Structure>)
    requires DescriptorTransmission.Conveys(d, c) && CanRead(c, known)
    ensures Tells(d, c, known, c.descriptor.startOfFrame, c.descriptor.endOfFrame)
  {
    hide DescriptorRoundTrip.Decode, DependencyDescriptor.Encoding, DependencyDescriptor.Accepted, DependencyDescriptor.ValidContext;
    hide DescriptorRoundTrip.CanRead;
  }

  // ---------------------------------------------------------------- a stream of frames

  /** A frame's context and the number of packets it is sent in. */
  datatype DescribedFrame = DescribedFrame(context: Context, packets: nat)

  function ContextsOf(f: DescribedFrame): (cs: seq<Context>)
    ensures |cs| == f.packets
  {
    seq(f.packets, i requires 0 <= i < f.packets => ForPacket(f.context, i, f.packets))
  }

  /** The contexts of all packets, frame after frame. */
  function PacketContexts(fs: seq<DescribedFrame>): seq<Context> {
    if fs == [] then [] else PacketContexts(fs[..|fs| - 1]) + ContextsOf(fs[|fs| - 1])
  }

  /** Every packet's descriptor can be written. */
  ghost predicate FrameIsWritable(f: DescribedFrame) {
    f.packets > 0 && forall i :: 0 <= i < f.packets ==> Writable(ForPacket(f.context, i, f.packets))
  }

  /** Frame `k` has its structure attached, or keeps the one before it. */
  ghost predicate StructureIsAnnounced(start: Option<Structure>, fs: seq<DescribedFrame>, k: nat)
    requires k < |fs|
  {
    || fs[k].context.descriptor.structureAttached
    || if k == 0 then DescriptorRoundTrip.Holds(start, fs[0].context.structure)
       else DescriptorRoundTrip.ReadsAs(fs[k - 1].context.structure, fs[k].context.structure)
  }

  ghost predicate WellAnnounced(start: Option<Structure>, fs: seq<DescribedFrame>) {
    forall k :: 0 <= k < |fs| ==> FrameIsWritable(fs[k]) && StructureIsAnnounced(start, fs, k)
  }

  /** The first packet of a frame with an attached structure delivers it. */
  lemma FirstDelivers(f: DescribedFrame)
    requires FrameIsWritable(f) && f.context.descriptor.structureAttached
    ensures var c := ForPacket(f.context, 0, f.packets);
            Writable(c) && DescriptorRoundTrip.Delivers(c)
  {
    hide DependencyDescriptor.ValidContext, DependencyDescriptor.Accepted, DependencyDescriptor.Encoding;
    assert Writable(ForPacket(f.context, 0, f.packets));
  }

  lemma SameStructure(f: DescribedFrame, i: nat)
    requires FrameIsWritable(f) && i < f.packets
    ensures var c := ContextsOf(f)[i];
            Writable(c) && c == ForPacket(f.context, i, f.packets) && c.structure == f.context.structure
  {
    hide Writable;
  }

  lemma {:induction false} LastOfFrames(fs: seq<DescribedFrame>)
    requires fs != [] && fs[|fs| - 1].packets > 0
    ensures var cs := PacketContexts(fs); cs != [] && cs[|cs| - 1].structure == fs[|fs| - 1].context.structure
  {
  }

  lemma {:induction false} FramesAreAnnounced(start: Option<Structure>, fs: seq<DescribedFrame>)
    requires WellAnnounced(start, fs)
    ensures DescriptorRoundTrip.Announced(start, PacketContexts(fs))
    decreases |fs|
  {
    if fs != [] {
      hide Writable, DescriptorRoundTrip.Delivers, DescriptorRoundTrip.Holds, DescriptorRoundTrip.ReadsAs;
      var n := |fs| - 1;
      var front, f := fs[..n], fs[n];
      FrontIsAnnounced(start, fs);
      FramesAreAnnounced(start, front);
      var a, b := PacketContexts(front), ContextsOf(f);
      forall j | 0 <= j < |a + b|
        ensures DescriptorRoundTrip.Announces(start, a + b, j)
      {
        if j < |a| {
          assert DescriptorRoundTrip.Announces(start, a, j);
          SameBefore(start, a, b, j);
        } else {
          FrameAnnounces(start, fs, a, j - |a|);
        }
      }
    }
  }

  lemma FrontIsAnnounced(start: Option<Structure>, fs: seq<DescribedFrame>)
    requires WellAnnounced(start, fs) && fs != []
    ensures WellAnnounced(start, fs[..|fs| - 1])
  {
    hide FrameIsWritable;
    var front := fs[..|fs| - 1];
    forall k | 0 <= k < |front|
      ensures FrameIsWritable(front[k]) && StructureIsAnnounced(start, front, k)
    {
      assert FrameIsWritable(fs[k]) && StructureIsAnnounced(start, fs, k);
    }
  }

  lemma SameBefore(start: Option<Structure>, a: seq<Context>, b: seq<Context>, j: nat)
    requires j < |a| && DescriptorRoundTrip.Announces(start, a, j)
    ensures DescriptorRoundTrip.Announces(start, a + b, j)
  {
    hide DependencyDescriptor.ValidContext, DependencyDescriptor.Accepted, DescriptorRoundTrip.Delivers;
    assert (a + b)[j] == a[j] && (j > 0 ==> (a + b)[j - 1] == a[j - 1]);
  }

  lemma HasPackets(f: DescribedFrame)
    requires FrameIsWritable(f)
    ensures f.packets > 0
  {
  }

  lemma NoContexts()
    ensures PacketContexts([]) == []
  {
  }

  /** Packet `i` of the last frame. */
  lemma FrameAnnounces(start: Option<Structure>, fs: seq<DescribedFrame>, a: seq<Context>, i: nat)
    requires WellAnnounced(start, fs) && fs != [] && a == PacketContexts(fs[..|fs| - 1]) && i < fs[|fs| - 1].packets
    ensures DescriptorRoundTrip.Announces(start, a + ContextsOf(fs[|fs| - 1]), |a| + i)
  {
    hide DependencyDescriptor.ValidContext, DependencyDescriptor.Accepted, DependencyDescriptor.Encoding;
    hide DescriptorRoundTrip.Delivers, ForPacket, ContextsOf, FrameIsWritable, PacketContexts;
    var n := |fs| - 1;
    var f := fs[n];
    var cs := a + ContextsOf(f);
    assert FrameIsWritable(f) && StructureIsAnnounced(start, fs, n);
    SameStructure(f, i);
    assert cs[|a| + i] == ContextsOf(f)[i];
    if i > 0 {
      SameStructure(f, i - 1);
      assert cs[|a| + i - 1] == ContextsOf(f)[i - 1];
    } else {
      if f.context.descriptor.structureAttached {
        FirstDelivers(f);
      } else if n > 0 {
        assert FrameIsWritable(fs[n - 1]);
        HasPackets(fs[n - 1]);
        LastOfFrames(fs[..n]);
        assert cs[|a| - 1] == a[|a| - 1];
      } else {
        assert a == [] by { NoContexts(); }
      }
    }
  }

  /** The bits of each packet's descriptor. */
  function BitsOf(ds: seq<Bytes>): (bs: seq<seq<bool>>)
    ensures |bs| == |ds|
  {
    seq(|ds|, j requires 0 <= j < |ds| => AllBits(ds[j]))
  }

  /**
    A receiver that starts with any structure or none, takes the packets in order and keeps the last
    structure it has read, recovers the descriptor of every packet of every stream of frames in
    which each change of structure, and the first frame if the receiver holds nothing, has the
    structure attached.
   */
  lemma StreamIsUnderstood(start: Option<Structure>, fs: seq<DescribedFrame>, ds: seq<Bytes>, j: nat)
    requires WellAnnounced(start, fs) && |ds| == |PacketContexts(fs)| && j < |ds|
    requires forall k :: 0 <= k < |ds| ==> DescriptorTransmission.Conveys(ds[k], PacketContexts(fs)[k])
    ensures var c := PacketContexts(fs)[j];
            Tells(ds[j], c, DescriptorRoundTrip.KnownAfter(start, BitsOf(ds), j),
                  c.descriptor.startOfFrame, c.descriptor.endOfFrame)
  {
    var cs, bs := PacketContexts(fs), BitsOf(ds);
    hide DescriptorTransmission.Conveys, PacketContexts, WellAnnounced, Tells;
    FramesAreAnnounced(start, fs);
    var pads := PadsOf(cs, ds);
    DescriptorRoundTrip.ReceiverKeepsUp(start, cs, bs, pads, j);
    Told(ds[j], cs[j], DescriptorRoundTrip.KnownAfter(start, bs, j));
  }

  lemma PadsOf(cs: seq<Context>, ds: seq<Bytes>) returns (pads: seq<seq<bool>>)
    requires |cs| == |ds| && forall k :: 0 <= k < |ds| ==> DescriptorTransmission.Conveys(ds[k], cs[k])
    ensures DescriptorRoundTrip.Encoded(cs, BitsOf(ds), pads)
  {
    hide DescriptorRoundTrip.Encodes;
    pads := [];
    for k := 0 to |ds|
      invariant |pads| == k && forall i :: 0 <= i < k ==> DescriptorRoundTrip.Encodes(cs[i], BitsOf(ds)[i], pads[i])
    {
      var pad := OnePad(cs[k], ds[k]);
      pads := pads + [pad];
    }
  }

  lemma OnePad(c: Context, d: Bytes) returns (pad: seq<bool>)
    requires DescriptorTransmission.Conveys(d, c)
    ensures DescriptorRoundTrip.Encodes(c, AllBits(d), pad)
  {
    hide DescriptorRoundTrip.Recovers, DescriptorRoundTrip.Decode, DependencyDescriptor.ValidContext, DependencyDescriptor.Accepted;
    pad := DescriptorWriter.Padding(|DependencyDescriptor.Encoding(c)|);
  }
}
