/**
  RTP packets as bytes: the accessors of src/rtp.cpp and the layout that
  src/rtppacketizer.cpp produces.
 */
module RtpPacket {
  import opened Bits

  const RTP_HEADER_SIZE: nat := 12

  type U16 = x: int | 0 <= x < 65536
  type U32 = x: int | 0 <= x < 0x1_0000_0000

  function U16At(p: Bytes, i: nat): U16
    requires i + 2 <= |p|
  {
    (p[i] as int) * 256 + p[i + 1]
  }

  function U32At(p: Bytes, i: nat): U32
    requires i + 4 <= |p|
  {
    65536 * U16At(p, i) + U16At(p, i + 2)
  }

  function FromU16(x: U16): (r: Bytes)
    ensures |r| == 2 && U16At(r, 0) == x
  {
    [x / 256, x % 256]
  }

  function FromU32(x: U32): (r: Bytes)
    ensures |r| == 4 && U32At(r, 0) == x
  {
    [x / 0x100_0000, x / 65536 % 256, x / 256 % 256, x % 256]
  }

  /** Bytes `i ..` overwritten with `field`. */
  function Put(p: Bytes, i: nat, field: Bytes): (r: Bytes)
    requires i + |field| <= |p|
    ensures |r| == |p|
    ensures forall k :: 0 <= k < |p| ==> r[k] == if i <= k < i + |field| then field[k - i] else p[k]
  {
    p[..i] + field + p[i + |field|..]
  }

  // ---------------------------------------------------------------- reading

  predicate HasPadding(p: Bytes) requires |p| >= 12 { p[0] / 32 % 2 == 1 }

  predicate HasExtension(p: Bytes) requires |p| >= 12 { p[0] / 16 % 2 == 1 }

  function CsrcCount(p: Bytes): nat requires |p| >= 12 { p[0] % 16 }

  predicate Marker(p: Bytes) requires |p| >= 12 { p[1] / 128 == 1 }

  function PayloadType(p: Bytes): nat requires |p| >= 12 { p[1] % 128 }

  function SeqNumber(p: Bytes): U16 requires |p| >= 12 { U16At(p, 2) }

  function Timestamp(p: Bytes): U32 requires |p| >= 12 { U32At(p, 4) }

  function Ssrc(p: Bytes): U32 requires |p| >= 12 { U32At(p, 8) }

  /** `getSize`: the fixed header and the contributing sources. */
  function FixedSize(p: Bytes): nat requires |p| >= 12 { 12 + 4 * CsrcCount(p) }

  /** The header's own length fields lie inside the packet. */
  predicate Readable(p: Bytes) {
    && |p| >= 12
    && FixedSize(p) <= |p|
    && (HasExtension(p) ==> FixedSize(p) + 4 <= |p|)
  }

  /** `getExtensionHeaderSize` */
  function ExtensionSize(p: Bytes): nat
    requires Readable(p)
  {
    if HasExtension(p) then 4 + 4 * U16At(p, FixedSize(p) + 2) else 0
  }

  function BodyOffset(p: Bytes): nat
    requires Readable(p)
  {
    FixedSize(p) + ExtensionSize(p)
  }

  function PaddingSize(p: Bytes): nat
    requires |p| >= 12
  {
    if HasPadding(p) then p[|p| - 1] else 0
  }

  /** What the depacketizers look at; empty when header and padding use up the packet. */
  function Payload(p: Bytes): Bytes
    requires Readable(p)
  {
    if |p| <= BodyOffset(p) + PaddingSize(p) then [] else p[BodyOffset(p)..|p| - PaddingSize(p)]
  }

  // ---------------------------------------------------------------- writing

  datatype Header = Header(payloadType: nat, seqNumber: U16, timestamp: U32, ssrc: U32, marker: bool)

  /** An extension block: profile, length in words, and that many words. */
  predicate IsExtension(e: Bytes) {
    e == [] || (|e| >= 4 && |e| == 4 + 4 * U16At(e, 2))
  }

  function FixedHeader(h: Header, extension: bool): (r: Bytes)
    requires h.payloadType < 128
    ensures |r| == 12
  {
    [128 + (if extension then 16 else 0), (if h.marker then 128 else 0) + h.payloadType] +
    FromU16(h.seqNumber) + FromU32(h.timestamp) + FromU32(h.ssrc)
  }

  /** The packet that `packetize` builds around an extension block and a payload. */
  function Build(h: Header, extension: Bytes, payload: Bytes): (p: Bytes)
    requires h.payloadType < 128
  {
    FixedHeader(h, extension != []) + extension + payload
  }

  lemma ReadU16(p: Bytes, i: nat, x: U16)
    requires i + 2 <= |p| && p[i..i + 2] == FromU16(x)
    ensures U16At(p, i) == x
  {
    assert p[i] == p[i..i + 2][0] && p[i + 1] == p[i..i + 2][1];
  }

  lemma ReadU32(p: Bytes, i: nat, x: U32)
    requires i + 4 <= |p| && p[i..i + 4] == FromU32(x)
    ensures U32At(p, i) == x
  {
    var q := p[i..i + 4];
    assert p[i] == q[0] && p[i + 1] == q[1] && p[i + 2] == q[2] && p[i + 3] == q[3];
  }

  lemma FixedFields(h: Header, extension: bool, p: Bytes)
    requires h.payloadType < 128 && |p| >= 12 && p[..12] == FixedHeader(h, extension)
    ensures p[0] / 64 == 2 && !HasPadding(p) && HasExtension(p) == extension && CsrcCount(p) == 0
    ensures PayloadType(p) == h.payloadType && Marker(p) == h.marker
    ensures SeqNumber(p) == h.seqNumber && Timestamp(p) == h.timestamp && Ssrc(p) == h.ssrc
  {
    hide U16At, U32At, FromU16, FromU32;
    var f := FixedHeader(h, extension);
    assert p[0] == p[..12][0] && p[1] == p[..12][1];
    assert p[2..4] == p[..12][2..4] == FromU16(h.seqNumber);
    assert p[4..8] == p[..12][4..8] == FromU32(h.timestamp);
    assert p[8..12] == p[..12][8..12] == FromU32(h.ssrc);
    ReadU16(p, 2, h.seqNumber);
    ReadU32(p, 4, h.timestamp);
    ReadU32(p, 8, h.ssrc);
  }

  /** The accessors find again everything that was put in, and locate the payload exactly. */
  lemma BuildIsReadable(h: Header, extension: Bytes, payload: Bytes)
    requires h.payloadType < 128 && IsExtension(extension)
    ensures var p := Build(h, extension, payload);
            && Readable(p)
            && BodyOffset(p) == 12 + |extension|
            && Payload(p) == payload && p[0] / 64 == 2
            && PayloadType(p) == h.payloadType && SeqNumber(p) == h.seqNumber && Marker(p) == h.marker
            && Timestamp(p) == h.timestamp && Ssrc(p) == h.ssrc
  {
    hide FixedHeader, PayloadType, SeqNumber, Marker, Timestamp, Ssrc;
    var f := FixedHeader(h, extension != []);
    var p := f + extension + payload;
    assert p[..12] == f;
    FixedFields(h, extension != [], p);
    if extension != [] {
      assert p[14] == extension[2] && p[15] == extension[3];
    }
    assert p[12 + |extension|..] == payload;
  }

  // ---------------------------------------------------------------- packets of other senders

  function CsrcBytes(csrcs: seq<U32>): (r: Bytes)
    ensures |r| == 4 * |csrcs|
  {
    if csrcs == [] then [] else FromU32(csrcs[0]) + CsrcBytes(csrcs[1..])
  }

  /** Padding: any bytes and then the number of them all. */
  function PaddingBytes(fill: Bytes): (r: Bytes)
    requires |fill| < 255
  {
    fill + [|fill| + 1]
  }

  /** |V=2|P|X| CC | */
  function FirstByte(padding: bool, extension: bool, count: nat): Byte
    requires count < 16
  {
    128 + (if padding then 32 else 0) + (if extension then 16 else 0) + count
  }

  /** A packet after section 5.1 of RFC 3550, with contributing sources and padding. */
  function Layout(h: Header, csrcs: seq<U32>, extension: Bytes, payload: Bytes, padded: bool, fill: Bytes): Bytes
    requires h.payloadType < 128 && |csrcs| < 16 && |fill| < 255
  {
    [FirstByte(padded, extension != [], |csrcs|)] + FixedHeader(h, extension != [])[1..] + CsrcBytes(csrcs) +
    extension + payload + (if padded then PaddingBytes(fill) else [])
  }

  lemma FirstFields(padding: bool, extension: bool, count: nat)
    requires count < 16
    ensures var b := FirstByte(padding, extension, count);
            (b / 32 % 2 == 1 <==> padding) && (b / 16 % 2 == 1 <==> extension) && b % 16 == count
  {
  }

  /** The fields behind the first byte. */
  lemma OtherFields(h: Header, extension: bool, p: Bytes)
    requires h.payloadType < 128 && |p| >= 12 && p[1..12] == FixedHeader(h, extension)[1..]
    ensures PayloadType(p) == h.payloadType && Marker(p) == h.marker
    ensures SeqNumber(p) == h.seqNumber && Timestamp(p) == h.timestamp && Ssrc(p) == h.ssrc
  {
    hide FixedHeader, U16At, U32At;
    var f := FixedHeader(h, extension);
    var q := [f[0]] + p[1..];
    assert q[..12] == f by { assert f == [f[0]] + f[1..]; }
    FixedFields(h, extension, q);
    assert p[1] == q[1];
    assert p[2..4] == q[2..4] && p[4..8] == q[4..8] && p[8..12] == q[8..12];
    SameFields(p, q);
  }

  lemma SameFields(p: Bytes, q: Bytes)
    requires |p| >= 12 && |q| >= 12 && forall i :: 1 <= i < 12 ==> p[i] == q[i]
    ensures PayloadType(p) == PayloadType(q) && Marker(p) == Marker(q)
    ensures SeqNumber(p) == SeqNumber(q) && Timestamp(p) == Timestamp(q) && Ssrc(p) == Ssrc(q)
  {
  }

  /** The accessors find fields and payload also behind contributing sources and in front of padding. */
  lemma LayoutIsReadable(h: Header, csrcs: seq<U32>, extension: Bytes, payload: Bytes, padded: bool, fill: Bytes)
    requires h.payloadType < 128 && |csrcs| < 16 && |fill| < 255 && IsExtension(extension)
    ensures var p := Layout(h, csrcs, extension, payload, padded, fill);
            && Readable(p)
            && FixedSize(p) == 12 + 4 * |csrcs| && BodyOffset(p) == 12 + 4 * |csrcs| + |extension|
            && PaddingSize(p) == (if padded then |fill| + 1 else 0)
            && Payload(p) == payload
            && PayloadType(p) == h.payloadType && SeqNumber(p) == h.seqNumber && Marker(p) == h.marker
            && Timestamp(p) == h.timestamp && Ssrc(p) == h.ssrc
  {
    hide FixedHeader, CsrcBytes, FirstByte, PayloadType, SeqNumber, Marker, Timestamp, Ssrc;
    var first, f := FirstByte(padded, extension != [], |csrcs|), FixedHeader(h, extension != [])[1..];
    var sources, end := CsrcBytes(csrcs), if padded then PaddingBytes(fill) else [];
    var p := [first] + f + sources + extension + payload + end;
    FirstFields(padded, extension != [], |csrcs|);
    PartsOf([first] + f, sources, extension, payload, end);
    assert p[0] == first && p[1..12] == p[..12][1..];
    OtherFields(h, extension != [], p);
    if extension != [] {
      ExtensionLength(p, 12 + |sources|, extension);
    }
  }

  /** Where the parts of a packet lie. */
  lemma PartsOf(fixed: Bytes, sources: Bytes, extension: Bytes, payload: Bytes, end: Bytes)
    ensures var p, n := fixed + sources + extension + payload + end, |fixed| + |sources|;
            && |p| == n + |extension| + |payload| + |end|
            && p[..|fixed|] == fixed && p[n..n + |extension|] == extension
            && p[n + |extension|..|p| - |end|] == payload
            && (end != [] ==> p[|p| - 1] == end[|end| - 1])
  {
  }

  lemma ExtensionLength(p: Bytes, n: nat, extension: Bytes)
    requires n + |extension| <= |p| && p[n..n + |extension|] == extension && |extension| >= 4
    ensures U16At(p, n + 2) == U16At(extension, 2)
  {
    assert p[n + 2] == extension[2] && p[n + 3] == extension[3];
  }
}
