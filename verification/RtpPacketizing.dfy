/**
  `packetize` and `outgoing` of src/rtppacketizer.cpp: which header extension elements a packet
  carries and in which form, the space computed for them, and the numbering of a frame's packets.
 */
module RtpPacketizing {
  import opened Options
  import opened Bits
  import opened RtpPacket
  import opened HeaderExtension
  import opened SequenceCheck

  /** The packetization settings, with what the frame and the descriptor writer supply for a packet. */
  datatype Config = Config(
    orientationId: Byte, orientation: Byte,
    midId: Byte, mid: Option<Bytes>,
    ridId: Byte, rid: Option<Bytes>,
    descriptorId: Byte, descriptor: Option<Bytes>,
    allocationId: Byte, allocation: Bytes,
    playoutId: Byte, playoutMin: U16, playoutMax: U16,
    colorId: Byte, color: Bytes,
    captureId: Byte, capture: Option<Bytes>)

  /** Colour spaces have four bytes, capture times eight; allocations come only with a number. */
  predicate Shaped(c: Config) {
    && |c.color| == 4
    && (c.capture.Some? ==> |c.capture.value| == 8)
    && (c.allocation != [] ==> c.allocationId > 0)
  }

  function PlayoutBytes(c: Config): (r: Bytes)
    ensures |r| == 3
  {
    var min, max := c.playoutMin % 4096, c.playoutMax % 4096;
    [min / 16, min % 16 * 16 + max / 256, max % 256]
  }

  /** A receiver reads the two 12-bit delays back. */
  lemma PlayoutReads(c: Config)
    ensures var b := PlayoutBytes(c);
            && (b[0] as int) * 16 + b[1] / 16 == c.playoutMin % 4096
            && (b[1] % 16 as int) * 256 + b[2] == c.playoutMax % 4096
  {
    var min, max := c.playoutMin % 4096, c.playoutMax % 4096;
    assert (min % 16 * 16 + max / 256) / 16 == min % 16 && (min % 16 * 16 + max / 256) % 16 == max / 256;
  }

  predicate SetsOrientation(c: Config, mark: bool) {
    c.orientationId != 0 && mark && c.orientation != 0
  }

  predicate SetsCapture(c: Config) {
    c.captureId > 0 && c.capture.Some?
  }

  /** At most one element. */
  function If(present: bool, id: Byte, value: Bytes): seq<Element> {
    if present then [Element(id, value)] else []
  }

  function Optional(id: Byte, value: Option<Bytes>): seq<Element> {
    if value.Some? then [Element(id, value.value)] else []
  }

  function Orientation(c: Config, mark: bool): seq<Element> {
    If(SetsOrientation(c, mark), c.orientationId, [c.orientation])
  }

  function Allocation(c: Config): seq<Element> { If(c.allocation != [], c.allocationId, c.allocation) }

  function Playout(c: Config): seq<Element> { If(c.playoutId > 0, c.playoutId, PlayoutBytes(c)) }

  function Color(c: Config): seq<Element> { If(c.colorId > 0, c.colorId, c.color) }

  function Capture(c: Config): seq<Element> {
    if SetsCapture(c) then [Element(c.captureId, c.capture.value)] else []
  }

  /** The configured elements in the order in which they are written. */
  function Elements(c: Config, mark: bool): seq<Element> {
    Orientation(c, mark) +
    (Optional(c.midId, c.mid) +
     (Optional(c.ridId, c.rid) +
      (Optional(c.descriptorId, c.descriptor) +
       (Allocation(c) + (Playout(c) + (Color(c) + Capture(c)))))))
  }

  /** Whether two-byte element headers are used. */
  predicate TwoByte(c: Config, mark: bool) {
    || (c.descriptor.Some? && (|c.descriptor.value| > 16 || c.descriptorId > 14))
    || (SetsOrientation(c, mark) && c.orientationId > 14)
    || (c.mid.Some? && c.midId > 14)
    || (c.rid.Some? && c.ridId > 14)
    || |c.allocation| > 14 || c.allocationId > 14
    || c.playoutId > 14
    || (SetsCapture(c) && c.captureId > 14)
  }

  // ---------------------------------------------------------------- which settings are carried

  predicate TextFits(two: bool, id: Byte, value: Option<Bytes>) {
    value.Some? ==> id != 0 && if two then |value.value| <= 255 else 1 <= |value.value| <= 16
  }

  /** What the settings must satisfy for every element to be sent. */
  predicate Carried(c: Config, mark: bool) {
    var two := TwoByte(c, mark);
    && TextFits(two, c.midId, c.mid)
    && TextFits(two, c.ridId, c.rid)
    && TextFits(two, c.descriptorId, c.descriptor)
    && |c.allocation| <= 255
    && (two || c.colorId <= 14)
  }

  ghost predicate AllFit(two: bool, es: seq<Element>) {
    forall e :: e in es ==> Fits(two, e)
  }

  lemma FitMore(two: bool, a: seq<Element>, b: seq<Element>)
    ensures AllFit(two, a + b) <==> AllFit(two, a) && AllFit(two, b)
  {
    hide Fits;
    assert forall e :: e in a + b <==> e in a || e in b;
  }

  lemma FitOne(two: bool, e: Element)
    ensures AllFit(two, [e]) <==> Fits(two, e)
    ensures AllFit(two, [])
  {
    assert e in [e];
  }

  /** Every element is acceptable to the writers if and only if the settings say so. */
  lemma CarriedIff(c: Config, mark: bool)
    requires Shaped(c)
    ensures AllFit(TwoByte(c, mark), Elements(c, mark)) <==> Carried(c, mark)
  {
    SingleFits(c, mark);
    TextIff(TwoByte(c, mark), c.midId, c.mid);
    TextIff(TwoByte(c, mark), c.ridId, c.rid);
    TextIff(TwoByte(c, mark), c.descriptorId, c.descriptor);
    hide TwoByte, AllFit, TextFits, Optional, Orientation, Allocation, Playout, Color, Capture;
    var two := TwoByte(c, mark);
    var mid, rid, descriptor := Optional(c.midId, c.mid), Optional(c.ridId, c.rid), Optional(c.descriptorId, c.descriptor);
    var last := Color(c) + Capture(c);
    FitMore(two, Color(c), Capture(c));
    FitMore(two, Playout(c), last);
    FitMore(two, Allocation(c), Playout(c) + last);
    FitMore(two, descriptor, Allocation(c) + (Playout(c) + last));
    FitMore(two, rid, descriptor + (Allocation(c) + (Playout(c) + last)));
    FitMore(two, mid, rid + (descriptor + (Allocation(c) + (Playout(c) + last))));
    FitMore(two, Orientation(c, mark), mid + (rid + (descriptor + (Allocation(c) + (Playout(c) + last)))));
  }

  lemma TextIff(two: bool, id: Byte, value: Option<Bytes>)
    requires value.Some? && id > 14 ==> two
    ensures AllFit(two, Optional(id, value)) <==> TextFits(two, id, value)
  {
    if value.Some? {
      FitOne(two, Element(id, value.value));
    }
  }

  lemma SingleFits(c: Config, mark: bool)
    requires Shaped(c)
    ensures var two := TwoByte(c, mark);
            && AllFit(two, Orientation(c, mark)) && AllFit(two, Playout(c)) && AllFit(two, Capture(c))
            && (AllFit(two, Allocation(c)) <==> |c.allocation| <= 255)
            && (AllFit(two, Color(c)) <==> (two || c.colorId <= 14))
  {
    var two := TwoByte(c, mark);
    FitOne(two, Element(c.orientationId, [c.orientation]));
    FitOne(two, Element(c.allocationId, c.allocation));
    FitOne(two, Element(c.playoutId, PlayoutBytes(c)));
    FitOne(two, Element(c.colorId, c.color));
    FitOne(two, Element(c.captureId, if c.capture.Some? then c.capture.value else []));
    hide AllFit, PlayoutBytes;
  }

  /** A colour space number above 14 alone keeps to one-byte headers, and its element is left out. */
  lemma ColorSpaceExample(c: Config)
    requires c.orientationId == 0 && c.mid.None? && c.rid.None? && c.descriptor.None?
    requires c.allocation == [] && c.allocationId == 0 && c.playoutId == 0 && c.captureId == 0
    requires c.colorId == 15 && |c.color| == 4
    ensures !TwoByte(c, true) && !Carried(c, true)
    ensures Elements(c, true) == [Element(15, c.color)] && Fitting(false, Elements(c, true)) == []
  {
    var e := Element(15, c.color);
    assert Fitting(false, [e]) == Fitting(false, [e][1..]) == [];
    hide Fitting;
  }

  // ---------------------------------------------------------------- the space

  function AlignUp(n: nat): (r: nat)
    ensures r % 4 == 0 && n <= r < n + 4
  {
    (n + 3) / 4 * 4
  }

  /** The size of the whole extension block. */
  function BlockSize(two: bool, es: seq<Element>): nat {
    if es == [] then 0 else AlignUp(Need(two, es) + 4)
  }

  lemma {:induction false} NeedMore(two: bool, a: seq<Element>, b: seq<Element>)
    ensures Need(two, a + b) == Need(two, a) + Need(two, b)
    decreases |a|
  {
    if a == [] {
      assert a + b == b;
    } else {
      assert (a + b)[1..] == a[1..] + b;
      NeedMore(two, a[1..], b);
    }
  }

  /** What an element adds to the space. */
  function Space(present: bool, header: nat, n: nat): nat { if present then header + n else 0 }

  /** The computation in `packetize`, which adds up in another order than it writes. */
  method ExtensionSpace(c: Config, mark: bool) returns (size: nat)
    requires Shaped(c)
    ensures size == BlockSize(TwoByte(c, mark), Elements(c, mark))
  {
    hide TwoByte, Elements, Space, Need, SetsOrientation, SetsCapture;
    var two := TwoByte(c, mark);
    var headerSize := if two then 2 else 1;
    size := Space(SetsOrientation(c, mark), headerSize, 1);
    size := size + Space(c.playoutId > 0, headerSize, 3);
    size := size + Space(c.colorId > 0, headerSize, 4);
    size := size + Space(SetsCapture(c), headerSize, 8);
    size := size + Space(c.mid.Some?, headerSize, Length(c.mid));
    size := size + Space(c.rid.Some?, headerSize, Length(c.rid));
    size := size + Space(c.allocation != [], headerSize, |c.allocation|);
    size := size + Space(c.descriptor.Some?, headerSize, Length(c.descriptor));
    NeedOfElements(c, mark, two);
    NeedIsZero(two, Elements(c, mark));
    if size != 0 {
      size := size + 4;
    }
    size := (size + 3) / 4 * 4;
  }

  function Length(value: Option<Bytes>): nat { if value.Some? then |value.value| else 0 }

  lemma NeedIsZero(two: bool, es: seq<Element>)
    ensures Need(two, es) == 0 <==> es == []
  {
  }

  lemma NeedOfElements(c: Config, mark: bool, two: bool)
    requires Shaped(c)
    ensures var h := HeaderSize(two);
            Need(two, Elements(c, mark)) ==
            Space(SetsOrientation(c, mark), h, 1) + Space(c.mid.Some?, h, Length(c.mid)) +
            Space(c.rid.Some?, h, Length(c.rid)) + Space(c.descriptor.Some?, h, Length(c.descriptor)) +
            Space(c.allocation != [], h, |c.allocation|) + Space(c.playoutId > 0, h, 3) +
            Space(c.colorId > 0, h, 4) + Space(SetsCapture(c), h, 8)
  {
    SingleNeeds(c, mark, two);
    NeedOptional(two, c.midId, c.mid);
    NeedOptional(two, c.ridId, c.rid);
    NeedOptional(two, c.descriptorId, c.descriptor);
    hide Need, Space, Length, Optional, Orientation, Allocation, Playout, Color, Capture, SetsOrientation, SetsCapture;
    var mid, rid, descriptor := Optional(c.midId, c.mid), Optional(c.ridId, c.rid), Optional(c.descriptorId, c.descriptor);
    var last := Color(c) + Capture(c);
    NeedMore(two, Color(c), Capture(c));
    NeedMore(two, Playout(c), last);
    NeedMore(two, Allocation(c), Playout(c) + last);
    NeedMore(two, descriptor, Allocation(c) + (Playout(c) + last));
    NeedMore(two, rid, descriptor + (Allocation(c) + (Playout(c) + last)));
    NeedMore(two, mid, rid + (descriptor + (Allocation(c) + (Playout(c) + last))));
    NeedMore(two, Orientation(c, mark), mid + (rid + (descriptor + (Allocation(c) + (Playout(c) + last)))));
  }

  lemma NeedOptional(two: bool, id: Byte, value: Option<Bytes>)
    ensures Need(two, Optional(id, value)) == Space(value.Some?, HeaderSize(two), Length(value))
  {
    NeedNone(two);
    if value.Some? {
      NeedSingle(two, Element(id, value.value));
    }
  }

  lemma SingleNeeds(c: Config, mark: bool, two: bool)
    requires Shaped(c)
    ensures var h := HeaderSize(two);
            && Need(two, Orientation(c, mark)) == Space(SetsOrientation(c, mark), h, 1)
            && Need(two, Allocation(c)) == Space(c.allocation != [], h, |c.allocation|)
            && Need(two, Playout(c)) == Space(c.playoutId > 0, h, 3)
            && Need(two, Color(c)) == Space(c.colorId > 0, h, 4)
            && Need(two, Capture(c)) == Space(SetsCapture(c), h, 8)
  {
    hide SetsOrientation, PlayoutBytes, Need;
    NeedNone(two);
    NeedSingle(two, Element(c.orientationId, [c.orientation]));
    NeedSingle(two, Element(c.allocationId, c.allocation));
    NeedSingle(two, Element(c.playoutId, PlayoutBytes(c)));
    NeedSingle(two, Element(c.colorId, c.color));
    NeedSingle(two, Element(c.captureId, if c.capture.Some? then c.capture.value else []));
  }

  lemma NeedNone(two: bool)
    ensures Need(two, []) == 0
  {
  }

  lemma NeedSingle(two: bool, e: Element)
    ensures Need(two, [e]) == HeaderSize(two) + |e.value|
  {
    NeedNone(two);
  }

  // ---------------------------------------------------------------- the packet

  function Profile(two: bool): U16 { if two then 0x1000 else 0xBEDE }

  /** What the 16-bit length field holds for a block of `size` bytes: its words but one, wrapped. */
  function LengthField(size: nat): U16 {
    (size / 4 + 65535) % 65536
  }

  /**
    The extension block: profile, length, the body that the length announces, and whatever was
    allocated beyond that.
   */
  function Block(two: bool, es: seq<Element>): Bytes {
    if es == [] then []
    else
      var size := BlockSize(two, es);
      FieldFits(size);
      FromU16(Profile(two)) + FromU16(LengthField(size)) +
      AllWritten(two, Cleared(4 * LengthField(size)), 0, es) + Cleared(size - 4 - 4 * LengthField(size))
  }

  /** The length field announces no more than is there, and all of it just up to 2^18 bytes. */
  lemma FieldFits(size: nat)
    requires size >= 4 && size % 4 == 0
    ensures 4 + 4 * LengthField(size) <= size
    ensures 4 + 4 * LengthField(size) == size <==> size <= 0x40000
  {
    var words := size / 4;
    assert size == 4 * words && words >= 1;
    assert (words + 65535) % 65536 == (words - 1) % 65536;
  }

  /** Settings whose extension block fits its length field. */
  predicate Packetizable(c: Config, mark: bool) {
    Shaped(c) && BlockSize(TwoByte(c, mark), Elements(c, mark)) <= 0x40000
  }

  function ExtensionOf(c: Config, mark: bool): Bytes {
    Block(TwoByte(c, mark), Elements(c, mark))
  }

  /** The extension block is sized, cleared and written. */
  method WriteExtension(c: Config, mark: bool) returns (extension: Bytes)
    requires Shaped(c)
    ensures extension == ExtensionOf(c, mark)
  {
    var two := TwoByte(c, mark);
    var es := Elements(c, mark);
    var size := ExtensionSpace(c, mark);
    extension := [];
    hide TwoByte, Elements, AllWritten, Need, FromU16, LengthField;
    if size != 0 {
      FieldFits(size);
      var length: nat := LengthField(size);
      var body := new Byte[4 * length](i => 0);
      assert body[..] == Cleared(4 * length);
      WriteHeaders(two, body, es);
      extension := FromU16(Profile(two)) + FromU16(length) + body[..] + Cleared(size - 4 - 4 * length);
    }
  }

  class RtpPacketizer {
    const payloadType: Byte
    const ssrc: U32
    var timestamp: U32
    var sequenceNumber: U16

    constructor (pt: Byte, s: U32, ts: U32, first: U16)
      ensures payloadType == pt && ssrc == s && timestamp == ts && sequenceNumber == first
    {
      payloadType, ssrc, timestamp, sequenceNumber := pt, s, ts, first;
    }

    /** `packetize`; seven bits of the payload type are sent. */
    method Packetize(c: Config, payload: Bytes, mark: bool) returns (p: Bytes)
      requires Shaped(c)
      modifies this`sequenceNumber
      ensures p == Build(Header(payloadType % 128, old(sequenceNumber), timestamp, ssrc, mark), ExtensionOf(c, mark), payload)
      ensures sequenceNumber == (old(sequenceNumber) + 1) % 65536
    {
      hide ExtensionOf, FixedHeader;
      var extension := WriteExtension(c, mark);
      var header := Header(payloadType % 128, sequenceNumber, timestamp, ssrc, mark);
      sequenceNumber := (sequenceNumber + 1) % 65536;
      p := FixedHeader(header, extension != []) + extension + payload;
    }

    /** The loop of `outgoing` over a frame's payloads: numbered on, the last one marked. */
    method Outgoing(configs: seq<Config>, payloads: seq<Bytes>) returns (packets: seq<Bytes>)
      requires |configs| == |payloads| && forall i :: 0 <= i < |configs| ==> Shaped(configs[i])
      modifies this`sequenceNumber
      ensures sequenceNumber == (old(sequenceNumber) + |payloads|) % 65536
      ensures |packets| == |payloads|
      ensures forall i :: 0 <= i < |payloads| ==>
                packets[i] == FramePacket(Header(payloadType % 128, old(sequenceNumber), timestamp, ssrc, false), configs, payloads, i)
    {
      hide Build, ExtensionOf, Shaped;
      packets := [];
      for i := 0 to |payloads|
        invariant |packets| == i && sequenceNumber == (old(sequenceNumber) + i) % 65536
        invariant forall j :: 0 <= j < i ==>
                    packets[j] == FramePacket(Header(payloadType % 128, old(sequenceNumber), timestamp, ssrc, false), configs, payloads, j)
      {
        var p := Packetize(configs[i], payloads[i], i == |payloads| - 1);
        packets := packets + [p];
      }
    }
  }

  // ---------------------------------------------------------------- what a receiver finds

  /** The parts of a block. */
  lemma BlockParts(two: bool, es: seq<Element>)
    requires es != []
    ensures var b, size := Block(two, es), BlockSize(two, es);
            && |b| == size && 4 + 4 * LengthField(size) <= size
            && U16At(b, 0) == Profile(two) && U16At(b, 2) == LengthField(size)
            && b[4..4 + 4 * LengthField(size)] == AllWritten(two, Cleared(4 * LengthField(size)), 0, es)
  {
    hide Need, FromU16, U16At, AllWritten, LengthField;
    var size := BlockSize(two, es);
    FieldFits(size);
    var length: nat := LengthField(size);
    var body, rest := AllWritten(two, Cleared(4 * length), 0, es), Cleared(size - 4 - 4 * length);
    AllWrittenSize(two, Cleared(4 * length), 0, es);
    var b := FromU16(Profile(two)) + FromU16(length) + body + rest;
    assert b[0..2] == FromU16(Profile(two)) && b[2..4] == FromU16(length) && b[4..4 + 4 * length] == body;
    ReadU16(b, 0, Profile(two));
    ReadU16(b, 2, length);
  }

  lemma BlockIsExtension(two: bool, es: seq<Element>)
    requires BlockSize(two, es) <= 0x40000
    ensures IsExtension(Block(two, es)) && |Block(two, es)| == BlockSize(two, es)
    ensures es != [] ==>
              && U16At(Block(two, es), 0) == Profile(two)
              && Block(two, es)[4..] == AllWritten(two, Cleared(BlockSize(two, es) - 4), 0, es)
  {
    if es != [] {
      BlockParts(two, es);
      FieldFits(BlockSize(two, es));
      hide Block, Need, U16At, AllWritten, LengthField;
      var b := Block(two, es);
      assert b[4..|b|] == b[4..];
    }
  }

  /**
    The header size functions locate the payload of a packet if and only if its extension block
    is at most 2^18 bytes: above that the 16-bit length field has wrapped.
   */
  lemma PayloadIsLocatedIff(h: Header, c: Config, payload: Bytes)
    requires h.payloadType < 128
    ensures var p, block := Build(h, ExtensionOf(c, h.marker), payload), ExtensionOf(c, h.marker);
            Readable(p) &&
            (BodyOffset(p) == 12 + |block| <==> BlockSize(TwoByte(c, h.marker), Elements(c, h.marker)) <= 0x40000)
  {
    hide TwoByte, Elements, Need;
    var two, es := TwoByte(c, h.marker), Elements(c, h.marker);
    if es == [] {
      BuildIsReadable(h, [], payload);
    } else {
      var size := BlockSize(two, es);
      BlockParts(two, es);
      FieldFits(size);
      hide Block, AllWritten, LengthField, BlockSize;
      OffsetOf(h, Block(two, es), payload);
    }
  }

  /** With a media identification of 2^18 bytes the payload is not found. */
  lemma OversizedBlockExample(h: Header, c: Config, payload: Bytes)
    requires h.payloadType < 128 && c.mid.Some? && |c.mid.value| >= 0x40000
    ensures var p := Build(h, ExtensionOf(c, h.marker), payload);
            Readable(p) && BodyOffset(p) != 12 + |ExtensionOf(c, h.marker)|
  {
    var two, es := TwoByte(c, h.marker), Elements(c, h.marker);
    PayloadIsLocatedIff(h, c, payload);
    var rest := Optional(c.ridId, c.rid) + (Optional(c.descriptorId, c.descriptor) + (Allocation(c) + (Playout(c) + (Color(c) + Capture(c)))));
    hide Optional, Orientation, Allocation, Playout, Color, Capture, TwoByte, ExtensionOf, Readable, BodyOffset;
    NeedMore(two, Orientation(c, h.marker), Optional(c.midId, c.mid) + rest);
    NeedMore(two, Optional(c.midId, c.mid), rest);
    NeedOptional(two, c.midId, c.mid);
    hide Need;
    assert Need(two, es) >= 0x40000;
    NeedIsZero(two, es);
  }

  /** Where the size functions look for the payload behind any block with a length field. */
  lemma OffsetOf(h: Header, e: Bytes, payload: Bytes)
    requires h.payloadType < 128 && |e| >= 4
    ensures var p := Build(h, e, payload); Readable(p) && BodyOffset(p) == 16 + 4 * U16At(e, 2)
  {
    hide FixedHeader, PayloadType, SeqNumber, Marker, Timestamp, Ssrc;
    var f := FixedHeader(h, true);
    var p := f + e + payload;
    assert p[..12] == f;
    FixedFields(h, true, p);
    assert p[14] == e[2] && p[15] == e[3];
  }

  lemma {:induction false} AllWrittenSize(two: bool, body: Bytes, offset: nat, es: seq<Element>)
    ensures |AllWritten(two, body, offset, es)| == |body|
    decreases |es|
  {
    if es != [] {
      var w := Written(two, body, offset, es[0]);
      AllWrittenSize(two, w.0, offset + w.1, es[1..]);
    }
  }

  /** The block has room for its elements, and less than a word more. */
  lemma SpaceSuffices(two: bool, es: seq<Element>)
    requires es != []
    ensures Need(two, es) <= BlockSize(two, es) - 4 < Need(two, es) + 4 && BlockSize(two, es) % 4 == 0
  {
  }

  lemma BlockIsUnderstood(two: bool, es: seq<Element>)
    requires BlockSize(two, es) <= 0x40000 && es != []
    ensures |Block(two, es)| >= 4 && Parse(two, Block(two, es)[4..]) == Some(Fitting(two, es))
  {
    SpaceSuffices(two, es);
    hide Block, BlockSize, Parse, AllWritten, Fitting, Need, Fits, U16At, IsExtension;
    BlockIsExtension(two, es);
    ReceiverFinds(two, es, BlockSize(two, es) - 4);
  }

  /** What a receiver that follows RFC 8285 reads from a packet's extension. */
  predicate Announces(p: Bytes, two: bool, es: seq<Element>) {
    && Readable(p) && 16 <= BodyOffset(p) <= |p|
    && U16At(p, 12) == Profile(two)
    && Parse(two, p[16..BodyOffset(p)]) == Some(es)
  }

  /**
    The packet's fields and payload are found where the header size functions say, and a receiver
    that follows RFC 8285 reads from the extension exactly the configured elements, in order, if
    and only if the settings allow them all; otherwise those that are allowed.
   */
  lemma PacketIsUnderstood(h: Header, c: Config, payload: Bytes)
    requires h.payloadType < 128 && Packetizable(c, h.marker)
    ensures var p, two, es := Build(h, ExtensionOf(c, h.marker), payload), TwoByte(c, h.marker), Elements(c, h.marker);
            && Readable(p) && Payload(p) == payload && SeqNumber(p) == h.seqNumber && Marker(p) == h.marker
            && BodyOffset(p) == 12 + BlockSize(two, es)
            && (HasExtension(p) <==> es != [])
            && (es != [] ==> Announces(p, two, Fitting(two, es)))
            && (Fitting(two, es) == es <==> Carried(c, h.marker))
  {
    var two, es := TwoByte(c, h.marker), Elements(c, h.marker);
    CarriedIff(c, h.marker);
    FittingIff(two, es);
    hide TwoByte, Elements, AllFit, Carried, Parse, Fitting, Need, Block, IsExtension, Payload, SeqNumber, Marker;
    BlockIsExtension(two, es);
    var e := Block(two, es);
    BuildIsReadable(h, e, payload);
    ExtensionAt(h, e, payload);
    if es != [] {
      BlockIsUnderstood(two, es);
    }
  }

  function One(present: bool): nat { if present then 1 else 0 }

  /**
    Setting by setting, what a receiver has to read: the number and the bytes.  The orientation is
    sent with the last packet of a frame only.
   */
  ghost predicate Lists(c: Config, mark: bool, es: seq<Element>) {
    && (mark && c.orientationId > 0 && c.orientation > 0 ==> Element(c.orientationId, [c.orientation]) in es)
    && (c.mid.Some? ==> Element(c.midId, c.mid.value) in es)
    && (c.rid.Some? ==> Element(c.ridId, c.rid.value) in es)
    && (c.descriptor.Some? ==> Element(c.descriptorId, c.descriptor.value) in es)
    && (c.allocation != [] ==> Element(c.allocationId, c.allocation) in es)
    && (c.playoutId > 0 ==> Element(c.playoutId, PlayoutBytes(c)) in es)
    && (c.colorId > 0 ==> Element(c.colorId, c.color) in es)
    && (c.captureId > 0 && c.capture.Some? ==> Element(c.captureId, c.capture.value) in es)
    && |es| == One(mark && c.orientationId > 0 && c.orientation > 0) + One(c.mid.Some?) + One(c.rid.Some?) +
               One(c.descriptor.Some?) + One(c.allocation != []) + One(c.playoutId > 0) + One(c.colorId > 0) +
               One(c.captureId > 0 && c.capture.Some?)
  }

  /** Settings small enough for one-byte headers, whether or not they are used in this packet. */
  predicate Small(c: Config) {
    && c.orientationId <= 14 && c.midId <= 14 && c.ridId <= 14 && c.descriptorId <= 14
    && c.allocationId <= 14 && |c.allocation| <= 14 && c.playoutId <= 14 && c.captureId <= 14
    && (c.descriptor.Some? ==> |c.descriptor.value| <= 16)
  }

  /** Each part is in the whole. */
  lemma InSum(a: seq<Element>, b: seq<Element>)
    ensures forall e :: e in a ==> e in a + b
    ensures forall e :: e in b ==> e in a + b
  {
  }

  /** What a setting contributes. */
  predicate Contributes(es: seq<Element>, present: bool, e: Element) {
    |es| == One(present) && (present ==> e in es)
  }

  lemma TextContributes(id: Byte, value: Option<Bytes>)
    ensures |Optional(id, value)| == One(value.Some?)
    ensures value.Some? ==> Element(id, value.value) in Optional(id, value)
  {
  }

  lemma EachContributes(c: Config, mark: bool)
    ensures Contributes(Orientation(c, mark), mark && c.orientationId > 0 && c.orientation > 0, Element(c.orientationId, [c.orientation]))
    ensures Contributes(Allocation(c), c.allocation != [], Element(c.allocationId, c.allocation))
    ensures Contributes(Playout(c), c.playoutId > 0, Element(c.playoutId, PlayoutBytes(c)))
    ensures Contributes(Color(c), c.colorId > 0, Element(c.colorId, c.color))
    ensures |Capture(c)| == One(c.captureId > 0 && c.capture.Some?)
    ensures c.captureId > 0 && c.capture.Some? ==> Element(c.captureId, c.capture.value) in Capture(c)
  {
    hide PlayoutBytes;
  }

  /** The elements behind the descriptor. */
  lemma LastLists(c: Config)
    ensures var es := Allocation(c) + (Playout(c) + (Color(c) + Capture(c)));
            && (c.allocation != [] ==> Element(c.allocationId, c.allocation) in es)
            && (c.playoutId > 0 ==> Element(c.playoutId, PlayoutBytes(c)) in es)
            && (c.colorId > 0 ==> Element(c.colorId, c.color) in es)
            && (c.captureId > 0 && c.capture.Some? ==> Element(c.captureId, c.capture.value) in es)
            && |es| == One(c.allocation != []) + One(c.playoutId > 0) + One(c.colorId > 0) +
                       One(c.captureId > 0 && c.capture.Some?)
  {
    EachContributes(c, false);
    hide Orientation, Allocation, Playout, Color, Capture, PlayoutBytes, One;
    InSum(Color(c), Capture(c));
    InSum(Playout(c), Color(c) + Capture(c));
    InSum(Allocation(c), Playout(c) + (Color(c) + Capture(c)));
  }

  lemma ElementsList(c: Config, mark: bool)
    ensures Lists(c, mark, Elements(c, mark))
  {
    EachContributes(c, mark);
    TextContributes(c.midId, c.mid);
    TextContributes(c.ridId, c.rid);
    TextContributes(c.descriptorId, c.descriptor);
    LastLists(c);
    hide Orientation, Optional, Allocation, Playout, Color, Capture, PlayoutBytes, One;
    var mid, rid, descriptor := Optional(c.midId, c.mid), Optional(c.ridId, c.rid), Optional(c.descriptorId, c.descriptor);
    var last := Allocation(c) + (Playout(c) + (Color(c) + Capture(c)));
    InSum(descriptor, last);
    InSum(rid, descriptor + last);
    InSum(mid, rid + (descriptor + last));
    InSum(Orientation(c, mark), mid + (rid + (descriptor + last)));
  }

  /**
    From a packet whose settings allow it a receiver that follows RFC 8285 reads, in the form that
    the profile tells, each setting's number and bytes and nothing else; without any setting there
    is no extension.
   */
  lemma SettingsAreRead(h: Header, c: Config, payload: Bytes) returns (es: seq<Element>)
    requires h.payloadType < 128 && Packetizable(c, h.marker) && Carried(c, h.marker)
    ensures Lists(c, h.marker, es)
    ensures var p := Build(h, ExtensionOf(c, h.marker), payload);
            && Readable(p) && Payload(p) == payload && (HasExtension(p) <==> es != [])
            && (es != [] ==>
                  && 16 <= BodyOffset(p) <= |p| && U16At(p, 12) in {0xBEDE, 0x1000}
                  && (Small(c) ==> U16At(p, 12) == 0xBEDE)
                  && Parse(U16At(p, 12) == 0x1000, p[16..BodyOffset(p)]) == Some(es))
  {
    es := Elements(c, h.marker);
    ElementsList(c, h.marker);
    PacketIsUnderstood(h, c, payload);
    assert Small(c) ==> !TwoByte(c, h.marker);
    hide Elements, Lists, Small, TwoByte, Carried, Packetizable, ExtensionOf, Build, Parse, Payload, Fitting;
  }

  lemma ExtensionAt(h: Header, e: Bytes, payload: Bytes)
    requires h.payloadType < 128
    ensures var p := Build(h, e, payload);
            && |p| >= 12 + |e| && (HasExtension(p) <==> e != [])
            && (|e| >= 4 ==> U16At(p, 12) == U16At(e, 0) && p[16..12 + |e|] == e[4..])
  {
    hide FixedHeader, HasExtension;
    var f := FixedHeader(h, e != []);
    var p := f + e + payload;
    assert p[..12] == f;
    FixedFields(h, e != [], p);
    if |e| >= 4 {
      assert p[12] == e[0] && p[13] == e[1];
      assert p[16..12 + |e|] == e[4..];
    }
  }

  lemma PacketHeader(h: Header, c: Config, payload: Bytes)
    requires h.payloadType < 128 && Packetizable(c, h.marker)
    ensures var p := Build(h, ExtensionOf(c, h.marker), payload);
            Readable(p) && SeqNumber(p) == h.seqNumber && Marker(p) == h.marker && Timestamp(p) == h.timestamp
  {
    hide TwoByte, Elements, Need, Block, IsExtension, Build, Payload, SeqNumber, Marker, Timestamp;
    BlockIsExtension(TwoByte(c, h.marker), Elements(c, h.marker));
    BuildIsReadable(h, ExtensionOf(c, h.marker), payload);
  }

  /** Packet `i` of a frame, as `outgoing` makes it. */
  function FramePacket(h: Header, configs: seq<Config>, payloads: seq<Bytes>, i: nat): Bytes
    requires h.payloadType < 128 && i < |payloads| == |configs|
  {
    Build(Header(h.payloadType, (h.seqNumber + i) % 65536, h.timestamp, h.ssrc, i == |payloads| - 1),
          ExtensionOf(configs[i], i == |payloads| - 1), payloads[i])
  }

  /** Whichever of a frame's packets arrive, in whatever order: they are what the depacketizers take. */
  lemma OutgoingIsCarried(h: Header, configs: seq<Config>, payloads: seq<Bytes>, at: seq<nat>, packets: seq<Bytes>)
    requires h.payloadType < 128 && |configs| == |payloads| && |at| == |packets|
    requires forall i :: 0 <= i < |payloads| ==> Packetizable(configs[i], i == |payloads| - 1)
    requires forall i :: 0 <= i < |at| ==> at[i] < |payloads| && packets[i] == FramePacket(h, configs, payloads, at[i])
    ensures Carries(packets, payloads, h.seqNumber, at)
  {
    hide Packetizable, ExtensionOf, Build, IsExtension, SeqNumber, Payload, Marker;
    forall i | 0 <= i < |at|
      ensures Readable(packets[i]) && SeqNumber(packets[i]) == (h.seqNumber + at[i]) % 65536
      ensures Payload(packets[i]) == payloads[at[i]] && Marker(packets[i]) == (at[i] == |payloads| - 1)
    {
      var mark := at[i] == |payloads| - 1;
      var header := Header(h.payloadType, (h.seqNumber + at[i]) % 65536, h.timestamp, h.ssrc, mark);
      assert packets[i] == FramePacket(h, configs, payloads, at[i]);
      PacketIsUnderstood(header, configs[at[i]], payloads[at[i]]);
    }
  }
}
