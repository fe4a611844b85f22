/**
  Retransmission packets, section 4 of RFC 4588: a packet is wrapped by the NACK responder
  (src/rtcpnackresponder.cpp) and restored by the receiving session (src/rtcpreceivingsession.cpp,
  src/rtp.cpp).
 */
module Rtx {
  import opened Options
  import opened Bits
  import opened RtpPacket

  // ---------------------------------------------------------------- header setters

  /** `setPayloadType`, which leaves the marker bit. */
  function WithType(p: Bytes, pt: Byte): Bytes
    requires |p| >= 12
  {
    Put(p, 1, [p[1] / 128 * 128 + pt % 128])
  }

  function WithSeq(p: Bytes, s: U16): Bytes
    requires |p| >= 12
  {
    Put(p, 2, FromU16(s))
  }

  function WithSsrc(p: Bytes, s: U32): Bytes
    requires |p| >= 12
  {
    Put(p, 8, FromU32(s))
  }

  /** The three fields in which a retransmission's header differs. */
  function Relabel(p: Bytes, ssrc: U32, pt: Byte, s: U16): (r: Bytes)
    requires |p| >= 12
    ensures |r| == |p|
  {
    WithSeq(WithType(WithSsrc(p, ssrc), pt), s)
  }

  /** A packet that contains the whole header it announces. */
  predicate Whole(p: Bytes) {
    Readable(p) && BodyOffset(p) <= |p|
  }

  // ---------------------------------------------------------------- wrapping and restoring

  /** `wrapInRtx`: the header relabelled, the original sequence number, the original body. */
  function Wrapped(p: Bytes, ssrc: U32, pt: Byte, s: U16): Bytes
    requires Whole(p)
  {
    var h := BodyOffset(p);
    Relabel(p[..h], ssrc, pt, s) + FromU16(SeqNumber(p)) + p[h..]
  }

  /** `normalizePacket`; `None` where it throws. */
  function Normalized(p: Bytes, ssrc: U32, pt: Byte): Option<Bytes>
    requires Readable(p)
  {
    var h := BodyOffset(p);
    if |p| < h + 2 then None
    else Some(Relabel(p[..h], ssrc, pt, U16At(p, h)) + p[h + 2..])
  }

  /** Where `Relabel` writes and what. */
  lemma RelabelAt(p: Bytes, ssrc: U32, pt: Byte, s: U16, k: nat)
    requires |p| >= 12 && k < |p|
    ensures Relabel(p, ssrc, pt, s)[k] ==
            if k == 1 then p[1] / 128 * 128 + pt % 128
            else if 2 <= k < 4 then FromU16(s)[k - 2]
            else if 8 <= k < 12 then FromU32(ssrc)[k - 8]
            else p[k]
  {
    hide FromU16, FromU32;
  }

  /** Relabelling back and forth is the identity. */
  lemma RelabelBack(p: Bytes, ssrc: U32, pt: Byte, s: U16)
    requires |p| >= 12
    ensures Relabel(Relabel(p, ssrc, pt, s), Ssrc(p), PayloadType(p), SeqNumber(p)) == p
  {
    hide Relabel, Ssrc, SeqNumber;
    var q := Relabel(p, ssrc, pt, s);
    var r := Relabel(q, Ssrc(p), PayloadType(p), SeqNumber(p));
    forall k | 0 <= k < |p|
      ensures r[k] == p[k]
    {
      RelabelAt(p, ssrc, pt, s, k);
      RelabelAt(q, Ssrc(p), PayloadType(p), SeqNumber(p), k);
      RelabelAt(p, ssrc, pt, s, 1);
      FieldBytes(p);
    }
  }

  lemma FieldBytes(p: Bytes)
    requires |p| >= 12
    ensures FromU16(SeqNumber(p)) == p[2..4] && FromU32(Ssrc(p)) == p[8..12]
  {
    hide FromU32;
    var hi, lo := U16At(p, 8), U16At(p, 10);
    U32Halves(hi, lo);
    assert FromU16(hi) == [p[8], p[9]] && FromU16(lo) == [p[10], p[11]];
    hide FromU16, U16At;
    assert p[8..12] == [p[8], p[9]] + [p[10], p[11]];
  }

  lemma U32Halves(hi: U16, lo: U16)
    ensures FromU32(65536 * hi + lo) == FromU16(hi) + FromU16(lo)
  {
    var x := 65536 * hi + lo;
    assert x / 65536 == hi && x % 65536 == lo;
    assert x / 256 == 256 * hi + lo / 256;
    assert x / 0x100_0000 == hi / 256;
    assert x % 256 == lo % 256;
  }

  /** A relabelled header still announces the same body. */
  lemma SameBody(p: Bytes, q: Bytes)
    requires Whole(p) && |q| >= BodyOffset(p)
    requires q[0] == p[0] && forall k :: 12 <= k < BodyOffset(p) ==> q[k] == p[k]
    ensures Readable(q) && BodyOffset(q) == BodyOffset(p)
  {
  }

  /** What a receiver finds in a retransmission, as section 4 of RFC 4588 lays it out. */
  lemma WrappedLayout(p: Bytes, ssrc: U32, pt: Byte, s: U16)
    requires Whole(p) && pt < 128
    ensures var w, h := Wrapped(p, ssrc, pt, s), BodyOffset(p);
            && |w| == |p| + 2 && Readable(w) && BodyOffset(w) == h
            && Ssrc(w) == ssrc && PayloadType(w) == pt && SeqNumber(w) == s
            && Marker(w) == Marker(p) && Timestamp(w) == Timestamp(p)
            && w[12..h] == p[12..h]
            && U16At(w, h) == SeqNumber(p) && w[h + 2..] == p[h..]
            && w[..h] == Relabel(p[..h], ssrc, pt, s)
  {
    hide Relabel, FromU16, FromU32, ExtensionSize;
    var w, h := Wrapped(p, ssrc, pt, s), BodyOffset(p);
    var head := Relabel(p[..h], ssrc, pt, s);
    var osn := FromU16(SeqNumber(p));
    assert w == head + osn + p[h..];
    assert w[..h] == head && w[h..h + 2] == osn && w[h + 2..] == p[h..];
    forall k | 0 <= k < h
      ensures w[k] == if k == 1 then p[1] / 128 * 128 + pt
                      else if 2 <= k < 4 then FromU16(s)[k - 2]
                      else if 8 <= k < 12 then FromU32(ssrc)[k - 8]
                      else p[k]
    {
      RelabelAt(p[..h], ssrc, pt, s, k);
      assert w[k] == head[k];
    }
    SameBody(p, w);
    ReadU16(w, h, SeqNumber(p));
    assert w[2..4] == FromU16(s);
    ReadU16(w, 2, s);
    assert w[8..12] == FromU32(ssrc);
    ReadU32(w, 8, ssrc);
  }

  lemma WholeHeader(p: Bytes)
    requires Whole(p)
    ensures 12 <= BodyOffset(p) <= |p|
  {
  }

  /** Restoring a wrapped packet gives the original byte for byte, whatever its header holds. */
  lemma RestoreWrapped(p: Bytes, ssrc: U32, pt: Byte, s: U16)
    requires Whole(p) && pt < 128
    ensures Readable(Wrapped(p, ssrc, pt, s))
    ensures Normalized(Wrapped(p, ssrc, pt, s), Ssrc(p), PayloadType(p)) == Some(p)
  {
    WholeHeader(p);
    hide Wrapped, Relabel, Readable, Ssrc, PayloadType, SeqNumber, BodyOffset, U16At, Marker, Timestamp;
    WrappedLayout(p, ssrc, pt, s);
    var w, h := Wrapped(p, ssrc, pt, s), BodyOffset(p);
    HeaderFields(p, h);
    RelabelBack(p[..h], ssrc, pt, s);
    assert p == p[..h] + p[h..];
    assert Normalized(w, Ssrc(p), PayloadType(p)) ==
           Some(Relabel(w[..h], Ssrc(p), PayloadType(p), U16At(w, h)) + w[h + 2..]);
  }

  lemma HeaderFields(p: Bytes, h: nat)
    requires 12 <= h <= |p|
    ensures Ssrc(p[..h]) == Ssrc(p) && PayloadType(p[..h]) == PayloadType(p) && SeqNumber(p[..h]) == SeqNumber(p)
  {
  }

  // ---------------------------------------------------------------- in place

  /** The three header fields, written into the buffer. */
  method SetFields(a: array<Byte>, ssrc: U32, pt: Byte, s: U16)
    requires a.Length >= 12
    modifies a
    ensures a[..] == Relabel(old(a[..]), ssrc, pt, s)
  {
    ghost var was := a[..];
    a[2], a[3] := s / 256, s % 256;
    a[8], a[9], a[10], a[11] := ssrc / 0x100_0000, ssrc / 65536 % 256, ssrc / 256 % 256, ssrc % 256;
    a[1] := a[1] / 128 * 128 + pt % 128;
    forall k | 0 <= k < a.Length
      ensures a[k] == Relabel(was, ssrc, pt, s)[k]
    {
      RelabelAt(was, ssrc, pt, s, k);
    }
    hide Relabel;
  }

  /** The body moves two bytes forward. */
  method MoveBody(a: array<Byte>, h: nat)
    requires h + 2 <= a.Length
    modifies a
    ensures a[..a.Length - 2] == old(a[..h]) + old(a[h + 2..])
  {
    ghost var was := a[..];
    for i := h to a.Length - 2
      invariant forall k :: 0 <= k < h ==> a[k] == was[k]
      invariant forall k :: h <= k < i ==> a[k] == was[k + 2]
      invariant forall k :: i <= k < a.Length ==> a[k] == was[k]
    {
      a[i] := a[i + 2];
    }
  }

  /** `normalizePacket`: the new size, or `None` where it throws and the bytes stay. */
  method NormalizePacket(a: array<Byte>, ssrc: U32, pt: Byte) returns (size: Option<nat>)
    requires Readable(a[..])
    modifies a
    ensures size.Some? == Normalized(old(a[..]), ssrc, pt).Some?
    ensures size.None? ==> a[..] == old(a[..])
    ensures size.Some? ==> size.value == a.Length - 2 && Some(a[..size.value]) == Normalized(old(a[..]), ssrc, pt)
  {
    ghost var was := a[..];
    var h := HeaderLength(a);
    if a.Length < h + 2 {
      return None;
    }
    var original := (a[h] as int) * 256 + a[h + 1];
    SetFields(a, ssrc, pt, original);
    RelabelSplit(was, h, ssrc, pt, original);
    hide Relabel;
    ghost var relabelled := a[..];
    MoveBody(a, h);
    assert relabelled[..h] == Relabel(was[..h], ssrc, pt, original);
    assert relabelled[h + 2..] == was[h..][2..] == was[h + 2..];
    return Some(a.Length - 2);
  }

  /** `getBody`, as an offset. */
  method HeaderLength(a: array<Byte>) returns (h: nat)
    requires Readable(a[..])
    ensures h == BodyOffset(a[..]) && h >= 12
  {
    h := 12 + 4 * (a[0] % 16);
    assert h == FixedSize(a[..]);
    if a[0] / 16 % 2 == 1 {
      h := h + 4 + 4 * ((a[h + 2] as int) * 256 + a[h + 3]);
    }
  }

  lemma RelabelSplit(p: Bytes, h: nat, ssrc: U32, pt: Byte, s: U16)
    requires 12 <= h <= |p|
    ensures Relabel(p, ssrc, pt, s)[..h] == Relabel(p[..h], ssrc, pt, s)
    ensures Relabel(p, ssrc, pt, s)[h..] == p[h..]
  {
    hide Relabel;
    forall k | 0 <= k < |p|
      ensures Relabel(p, ssrc, pt, s)[k] == if k < h then Relabel(p[..h], ssrc, pt, s)[k] else p[k]
    {
      RelabelAt(p, ssrc, pt, s, k);
      if k < h {
        RelabelAt(p[..h], ssrc, pt, s, k);
      }
    }
  }

  // ---------------------------------------------------------------- the two ends

  /** A payload type is a 7-bit number. */
  type PayloadNumber = x: nat | x < 128

  type PayloadTypes = map<PayloadNumber, PayloadNumber>

  /** Whether a packet is wrapped at all. */
  predicate IsWrapped(ssrc: Option<U32>, types: PayloadTypes, p: Bytes) {
    |p| >= 12 && ssrc.Some? && PayloadType(p) in types
  }

  /** The retransmission side of the NACK responder. */
  class Sender {
    var rtxSsrc: Option<U32>
    var rtxTypes: PayloadTypes
    var rtxSeqNumber: U16

    constructor (ssrc: Option<U32>, types: PayloadTypes, first: U16)
      ensures rtxSsrc == ssrc && rtxTypes == types && rtxSeqNumber == first
    {
      rtxSsrc, rtxTypes, rtxSeqNumber := ssrc, types, first;
    }

    /** `wrapInRtx`; numbers are used up one by one, only by packets that are sent. */
    method WrapInRtx(p: Bytes) returns (r: Option<Bytes>)
      requires IsWrapped(rtxSsrc, rtxTypes, p) ==> Whole(p)
      modifies this`rtxSeqNumber
      ensures r.Some? <==> IsWrapped(rtxSsrc, rtxTypes, p)
      ensures r.Some? ==> r.value == Wrapped(p, rtxSsrc.value, rtxTypes[PayloadType(p)], old(rtxSeqNumber))
      ensures rtxSeqNumber == if r.Some? then (old(rtxSeqNumber) + 1) % 65536 else old(rtxSeqNumber)
    {
      if |p| < 12 || rtxSsrc.None? || PayloadType(p) !in rtxTypes {
        return None;
      }
      var h := BodyOffset(p);
      var head := WithSsrc(p[..h], rtxSsrc.value);
      head := WithType(head, rtxTypes[PayloadType(p)]);
      head := WithSeq(head, rtxSeqNumber);
      rtxSeqNumber := (rtxSeqNumber + 1) % 65536;
      r := Some(head + FromU16(SeqNumber(p)) + p[h..]);
    }
  }

  datatype Outcome = Nothing | Thrown | Restored(packet: Bytes)

  /** What `unwrapRtx` makes of a packet. */
  function Unwrapped(ssrc: U32, types: PayloadTypes, p: Bytes): Outcome
    requires |p| >= 14 ==> Readable(p)
  {
    if |p| < 14 || ssrc == 0 || PayloadType(p) !in types then Nothing
    else
      var r := Normalized(p, ssrc, types[PayloadType(p)]);
      if r.None? then Thrown else Restored(r.value)
  }

  /** The retransmission side of the receiving session. */
  class Receiver {
    var primarySsrc: U32
    var primaryTypes: PayloadTypes

    constructor (ssrc: U32, types: PayloadTypes)
      ensures primarySsrc == ssrc && primaryTypes == types
    {
      primarySsrc, primaryTypes := ssrc, types;
    }

    /** `unwrapRtx`, on a copy of the message. */
    method UnwrapRtx(p: Bytes) returns (r: Outcome)
      requires |p| >= 14 ==> Readable(p)
      ensures r == Unwrapped(primarySsrc, primaryTypes, p)
    {
      if |p| < 14 || primarySsrc == 0 || PayloadType(p) !in primaryTypes {
        return Nothing;
      }
      var copy := new Byte[|p|](i requires 0 <= i < |p| => p[i]);
      assert copy[..] == p;
      var size := NormalizePacket(copy, primarySsrc, primaryTypes[PayloadType(p)]);
      r := if size.Some? then Restored(copy[..size.value]) else Thrown;
    }
  }

  /** Two payload-type maps that undo each other. */
  ghost predicate Inverse(a: PayloadTypes, b: PayloadTypes) {
    forall x, y :: (x in a && a[x] == y) <==> (y in b && b[y] == x)
  }

  /**
    RTX identity: when the two ends have inverse maps, whatever packet of the primary stream the
    sender wraps, with whatever number, the receiver restores it byte for byte.
   */
  lemma RtxIdentity(p: Bytes, rtxSsrc: U32, toRtx: PayloadTypes, toPrimary: PayloadTypes, s: U16)
    requires Whole(p) && Ssrc(p) != 0 && PayloadType(p) in toRtx && Inverse(toRtx, toPrimary)
    ensures var w := Wrapped(p, rtxSsrc, toRtx[PayloadType(p)], s);
            Readable(w) && Unwrapped(Ssrc(p), toPrimary, w) == Restored(p)
  {
    WrappedLayout(p, rtxSsrc, toRtx[PayloadType(p)], s);
    RestoreWrapped(p, rtxSsrc, toRtx[PayloadType(p)], s);
    hide Wrapped, Normalized, Whole, Readable, PayloadType, Ssrc, BodyOffset;
  }
}
