/**
  The descriptor as the packetizer sends it (src/rtppacketizer.cpp): measured, written into a
  buffer of just that size, and read back by the receiver.
 */
module DescriptorTransmission {
  import opened Options
  import opened Bits
  import opened BitWriting
  import opened DependencyDescriptor
  import opened DescriptorWriter
  import opened DescriptorRoundTrip

  /** `getSize` */
  function SizeBytes(bits: nat): nat { (bits + 7) / 8 }

  /**
    The bytes are the padded encoding, and every receiver that holds the structure, or is being
    given it, recovers the descriptor.
   */
  ghost predicate Conveys(b: seq<Byte>, c: Context) {
    && ValidContext(c) && Accepted(c)
    && |b| == SizeBytes(|Encoding(c)|)
    && AllBits(b) == Encoding(c) + Padding(|Encoding(c)|)
    && WholeBytes(c, Padding(|Encoding(c)|))
    && forall known: Option<Structure> :: CanRead(c, known) ==>
         Recovers(c, HasExtendedFields(c, c.structure.templates[Chosen(c)]),
                  Decode(known, AllBits(b)), Padding(|Encoding(c)|))
  }

  lemma IsConveyed(b: seq<Byte>, c: Context)
    requires ValidContext(c) && Accepted(c) && |b| == SizeBytes(|Encoding(c)|)
    requires AllBits(b) == Encoding(c) + Padding(|Encoding(c)|)
    ensures Conveys(b, c)
  {
    hide HasExtendedFields, Encoding, Decode, Recovers, AllBits, CanRead;
    var pad := Padding(|Encoding(c)|);
    assert |Encoding(c)| + |pad| == 8 * |b|;
    forall known: Option<Structure> | CanRead(c, known)
      ensures Recovers(c, HasExtendedFields(c, c.structure.templates[Chosen(c)]), Decode(known, AllBits(b)), pad)
    {
      RoundTrip(c, known, pad);
    }
  }

  /**
    Whenever the measuring pass succeeds the writing pass succeeds in the measured number of
    bytes, fills them completely, and the receiver recovers the descriptor from them.
   */
  method Pack(c: Context) returns (r: Option<seq<Byte>>)
    requires ValidContext(c)
    ensures r.Some? <==> Accepted(c) && |Encoding(c)| <= SIZE_MAX
    ensures r.Some? ==> Conveys(r.value, c)
  {
    hide HasExtendedFields, Encoding, Decode, Recovers, AllBits, LayersFine, CanRead;
    var bits := GetSizeBits(c);
    if bits.None? {
      return None;
    }
    var buf := new Byte[SizeBytes(bits.value)](_ => 0);
    var ok := WriteTo(c, buf, buf.Length);
    IsConveyed(buf[..], c);
    r := Some(buf[..]);
  }
}
