/**
  The payload formats of H.264 (include/rtc/nalunit.hpp, src/nalunit.cpp, src/h264rtpdepacketizer.cpp)
  and H.265 (include/rtc/h265nalunit.hpp, src/h265nalunit.cpp, src/h265rtpdepacketizer.cpp):
  headers, fragmentation units, aggregation packets.
 */
module NalCodec {
  import opened Bits
  import opened RtpPacket
  import opened NalAssembly

  function Bit(b: bool): nat { if b then 1 else 0 }

  /** The units of an aggregation packet, or none when a size runs over the end. */
  datatype Aggregate = Units(list: seq<Bytes>) | TooLong

  function ReadAggregate(body: Bytes, offset: nat, acc: seq<Bytes>): Aggregate
    decreases |body| - offset
  {
    if offset + 2 >= |body| then Units(acc)
    else
      var size := U16At(body, offset);
      if offset + 2 + size > |body| then TooLong
      else ReadAggregate(body, offset + 2 + size, acc + [body[offset + 2..offset + 2 + size]])
  }

  datatype Codec = H264 | H265 {

    /** Bytes of the NAL unit header. */
    function HeaderSize(): nat { if H264? then 1 else 2 }

    /** Bytes that a fragmentation unit puts in front of its data. */
    function Overhead(): nat { HeaderSize() + 1 }

    function FragmentType(): nat { if H264? then 28 else 49 }

    function AggregateType(): nat { if H264? then 24 else 48 }

    /** The type field of a payload's first byte. */
    function UnitType(first: Byte): nat {
      if H264? then first % 32 else first / 2 % 64
    }

    /** The first byte with its type replaced, the other fields kept. */
    function SetUnitType(first: Byte, t: nat): Byte
      requires t < (if H264? then 32 else 64)
    {
      if H264? then first / 32 * 32 + t else first / 128 * 128 + t * 2 + first % 2
    }

    /** Units that the depacketizer hands on: known single types, and no forbidden bit for H.264. */
    predicate PassesThrough(nal: Bytes) {
      && |nal| >= HeaderSize()
      && if H264? then nal[0] < 128 && 1 <= UnitType(nal[0]) <= 23 else UnitType(nal[0]) < 47
    }

    /** The fragmentation unit for a stretch of `nal`'s payload. */
    function Wrap(nal: Bytes, start: bool, end: bool, data: Bytes): Bytes
      requires |nal| >= HeaderSize()
    {
      [SetUnitType(nal[0], FragmentType())] + nal[1..HeaderSize()] +
      [Bit(start) * 128 + Bit(end) * 64 + UnitType(nal[0])] + data
    }

    /** The unit header that a first fragment restores. */
    function Restored(payload: Bytes): Bytes
      requires |payload| > HeaderSize()
    {
      var fu := payload[HeaderSize()];
      if H264? then [payload[0] / 32 % 4 * 32 + fu % 32]
      else [SetUnitType(payload[0], fu % 64), payload[1]]
    }

    /** How `reassemble` reads one payload. */
    function Parse(payload: Bytes): Event {
      if payload == [] then Nothing
      else if |payload| < HeaderSize() then Malformed
      else
        var t := UnitType(payload[0]);
        if t == FragmentType() then
          if |payload| <= HeaderSize() then Nothing
          else
            var fu := payload[HeaderSize()];
            Fragment(fu / 128 == 1, fu / 64 % 2 == 1, Restored(payload), payload[Overhead()..])
        else if t == AggregateType() then
          var a := ReadAggregate(payload[HeaderSize()..], 0, []);
          if a.TooLong? then Malformed else Whole(a.list)
        else if H264? then
          if 0 < t < 24 then Whole([payload]) else Malformed
        else
          if t < 47 then Whole([payload]) else Whole([])
    }
  }

  lemma Header264(b: Byte, start: bool, end: bool)
    ensures var t := b % 32;
            var first, fu := H264.SetUnitType(b, 28), Bit(start) * 128 + Bit(end) * 64 + t;
            && first % 32 == 28 && first / 32 % 4 * 32 + t == b % 128
            && (fu / 128 == 1 <==> start) && (fu / 64 % 2 == 1 <==> end) && fu % 32 == t
  {
    var first := H264.SetUnitType(b, 28);
    assert first / 32 == b / 32;
  }

  /** A forbidden bit is not restored. */
  lemma ForbiddenBitIsCleared(nal: Bytes, start: bool, end: bool, data: Bytes)
    requires nal != []
    ensures H264.Parse(H264.Wrap(nal, start, end, data)) == Fragment(start, end, [nal[0] % 128], data)
  {
    hide ReadAggregate, Codec.SetUnitType, Bit;
    var first, fu := H264.SetUnitType(nal[0], 28), Bit(start) * 128 + Bit(end) * 64 + nal[0] % 32;
    var p := H264.Wrap(nal, start, end, data);
    assert p == [first, fu] + data;
    assert p[2..] == data;
    Header264(nal[0], start, end);
    assert H264.Restored(p) == [nal[0] % 128];
  }

  /** The two header bytes of a fragment, field by field. */
  lemma Header265(b: Byte, start: bool, end: bool)
    ensures var t := b / 2 % 64;
            var first, fu := H265.SetUnitType(b, 49), Bit(start) * 128 + Bit(end) * 64 + t;
            && first / 2 % 64 == 49 && H265.SetUnitType(first, t) == b
            && (fu / 128 == 1 <==> start) && (fu / 64 % 2 == 1 <==> end) && fu % 64 == t
  {
    var first := H265.SetUnitType(b, 49);
    assert first / 128 == b / 128 && first % 2 == b % 2;
  }

  lemma ParseWrap265(nal: Bytes, start: bool, end: bool, data: Bytes)
    requires H265.PassesThrough(nal)
    ensures |H265.Wrap(nal, start, end, data)| == 3 + |data|
    ensures H265.Parse(H265.Wrap(nal, start, end, data)) == Fragment(start, end, nal[..2], data)
  {
    hide ReadAggregate;
    var t := nal[0] / 2 % 64;
    var first, fu := H265.SetUnitType(nal[0], 49), Bit(start) * 128 + Bit(end) * 64 + t;
    var p := H265.Wrap(nal, start, end, data);
    assert p == [first, nal[1], fu] + data;
    assert p[3..] == data;
    Header265(nal[0], start, end);
    assert H265.Restored(p) == nal[..2];
  }

  /** A fragment is read back as what it was made from. */
  lemma ParseWrap(c: Codec, nal: Bytes, start: bool, end: bool, data: Bytes)
    requires c.PassesThrough(nal)
    ensures |c.Wrap(nal, start, end, data)| == c.Overhead() + |data|
    ensures c.Parse(c.Wrap(nal, start, end, data)) == Fragment(start, end, nal[..c.HeaderSize()], data)
  {
    match c
    case H264 =>
      ForbiddenBitIsCleared(nal, start, end, data);
      assert [nal[0] % 128] == nal[..1];
    case H265 => ParseWrap265(nal, start, end, data);
  }

  /** A fragment's first bytes on the wire, by the numbers of RFC 6184 and RFC 7798. */
  lemma WrapStarts(c: Codec, nal: Bytes, start: bool, end: bool, data: Bytes)
    requires c.PassesThrough(nal)
    ensures var p := c.Wrap(nal, start, end, data);
            if c.H264? then
              p[0] / 32 == nal[0] / 32 && p[0] % 32 == 28 && p[1] == Bit(start) * 128 + Bit(end) * 64 + nal[0] % 32
            else
              && p[0] / 128 == nal[0] / 128 && p[0] / 2 % 64 == 49 && p[0] % 2 == nal[0] % 2 && p[1] == nal[1]
              && p[2] == Bit(start) * 128 + Bit(end) * 64 + nal[0] / 2 % 64
  {
    Header265(nal[0], start, end);
  }

  // ---------------------------------------------------------------- aggregation packets

  ghost predicate AllShort(units: seq<Bytes>) {
    forall i :: 0 <= i < |units| ==> |units[i]| < 65536
  }

  /** Each unit behind its 16-bit size (section 5.7.1 of RFC 6184, section 4.4.2 of RFC 7798). */
  ghost function AggregateBody(units: seq<Bytes>): Bytes
    requires AllShort(units)
  {
    if units == [] then [] else FromU16(|units[0]|) + units[0] + AggregateBody(units[1..])
  }

  /** At most a size with nothing behind it, or a size that runs over the end. */
  predicate IsRest(tail: Bytes) {
    |tail| > 2 ==> U16At(tail, 0) > |tail| - 2
  }

  /** An empty unit at the very end is the one thing that is not told from nothing. */
  predicate Closed(units: seq<Bytes>, tail: Bytes) {
    units != [] && units[|units| - 1] == [] ==> tail != []
  }

  lemma TailAt(body: Bytes, offset: nat, a: Bytes, b: Bytes, rest: Bytes)
    requires offset <= |body| && |a| == 2 && body[offset..] == a + b + rest
    ensures offset + 2 + |b| <= |body| && U16At(body, offset) == U16At(a, 0)
    ensures body[offset + 2..offset + 2 + |b|] == b && body[offset + 2 + |b|..] == rest
  {
    var tail := body[offset..];
    assert body[offset] == tail[0] && body[offset + 1] == tail[1];
    assert body[offset + 2..offset + 2 + |b|] == tail[2..2 + |b|];
    assert body[offset + 2 + |b|..] == tail[2 + |b|..];
  }

  /** The reading loop takes the units one by one and looks at the rest. */
  lemma {:induction false} AggregateIsRead(body: Bytes, offset: nat, units: seq<Bytes>, tail: Bytes, acc: seq<Bytes>)
    requires AllShort(units) && IsRest(tail) && Closed(units, tail)
    requires offset <= |body| && body[offset..] == AggregateBody(units) + tail
    ensures ReadAggregate(body, offset, acc) == if |tail| <= 2 then Units(acc + units) else TooLong
    decreases |units|
  {
    if units == [] {
      assert body[offset..] == tail && acc + units == acc;
      if |tail| > 2 {
        assert body[offset] == tail[0] && body[offset + 1] == tail[1];
      }
    } else {
      var u, rest := units[0], AggregateBody(units[1..]) + tail;
      assert AggregateBody(units) + tail == FromU16(|u|) + u + rest;
      TailAt(body, offset, FromU16(|u|), u, rest);
      assert |u| + |rest| > 0;
      assert acc + units == (acc + [u]) + units[1..];
      AggregateIsRead(body, offset + 2 + |u|, units[1..], tail, acc + [u]);
    }
  }

  /** Every body is some units and a rest. */
  lemma {:induction false} BodyParts(body: Bytes) returns (units: seq<Bytes>, tail: Bytes)
    ensures AllShort(units) && IsRest(tail) && Closed(units, tail) && body == AggregateBody(units) + tail
    decreases |body|
  {
    if IsRest(body) {
      units, tail := [], body;
    } else {
      var n := U16At(body, 0);
      var u, more := body[2..2 + n], body[2 + n..];
      var us;
      us, tail := BodyParts(more);
      units := [u] + us;
      assert units[1..] == us && FromU16(n) == body[..2];
      assert body == body[..2] + u + more;
    }
  }

  predicate IsAggregateHeader(c: Codec, header: Bytes) {
    match c
    case H264 => |header| == 1 && header[0] % 32 == 24
    case H265 => |header| == 2 && header[0] / 2 % 64 == 48
  }

  /**
    An aggregation packet is read as exactly the units in it; it is malformed if and only if a
    size runs over its end.
   */
  lemma ParseAggregate(c: Codec, header: Bytes, units: seq<Bytes>, tail: Bytes)
    requires IsAggregateHeader(c, header) && AllShort(units) && IsRest(tail) && Closed(units, tail)
    ensures c.Parse(header + AggregateBody(units) + tail) == if |tail| <= 2 then Whole(units) else Malformed
  {
    hide ReadAggregate, AggregateBody;
    var p := header + AggregateBody(units) + tail;
    var body := p[c.HeaderSize()..];
    assert body == AggregateBody(units) + tail && body[0..] == body;
    AggregateIsRead(body, 0, units, tail, []);
    assert [] + units == units;
  }

  /** A sequence and a picture parameter set in one packet. */
  lemma ParameterSetsExample()
    ensures H264.Parse([0x18, 0, 2, 0x67, 0x42, 0, 2, 0x68, 0xCE]) == Whole([[0x67, 0x42], [0x68, 0xCE]])
    ensures H264.Parse([0x18, 0, 2, 0x67, 0x42, 0, 3, 0x68, 0xCE]) == Malformed
    ensures H265.Parse([0x60, 1, 0, 2, 0x67, 0x42, 0, 2, 0x68, 0xCE]) == Whole([[0x67, 0x42], [0x68, 0xCE]])
  {
    var sps, pps: Bytes := [0x67, 0x42], [0x68, 0xCE];
    OneUnit(pps);
    assert [sps, pps][1..] == [pps];
    assert AggregateBody([sps, pps]) == [0, 2] + sps + AggregateBody([pps]);
    ParseAggregate(H264, [0x18], [sps, pps], []);
    assert [0x18] + AggregateBody([sps, pps]) + [] == [0x18, 0, 2, 0x67, 0x42, 0, 2, 0x68, 0xCE];
    ParseAggregate(H265, [0x60, 1], [sps, pps], []);
    assert [0x60, 1] + AggregateBody([sps, pps]) + [] == [0x60, 1, 0, 2, 0x67, 0x42, 0, 2, 0x68, 0xCE];
    OneUnit(sps);
    ParseAggregate(H264, [0x18], [sps], [0, 3, 0x68, 0xCE]);
    assert [0x18] + AggregateBody([sps]) + [0, 3, 0x68, 0xCE] == [0x18, 0, 2, 0x67, 0x42, 0, 3, 0x68, 0xCE];
  }

  lemma OneUnit(u: Bytes)
    requires |u| < 65536
    ensures AggregateBody([u]) == FromU16(|u|) + u
  {
    assert [u][1..] == [];
  }

  // ---------------------------------------------------------------- single units

  lemma ParseWhole(c: Codec, nal: Bytes)
    requires c.PassesThrough(nal)
    ensures c.Parse(nal) == Whole([nal])
  {
  }

  /** Payloads that are neither a unit, nor a fragment, nor an aggregation packet. */
  lemma ParseOther(c: Codec, p: Bytes)
    ensures p == [] ==> c.Parse(p) == Nothing
    ensures c.H264? && p != [] && p[0] % 32 in {0, 25, 26, 27, 29, 30, 31} ==> c.Parse(p) == Malformed
    ensures c.H265? && |p| == 1 ==> c.Parse(p) == Malformed
    ensures c.H265? && |p| > 1 && p[0] / 2 % 64 in {47, 50, 63} ==> c.Parse(p) == Whole([])
  {
  }
}
