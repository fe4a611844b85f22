/**
  AV1 over RTP (src/av1rtppacketizer.cpp, src/av1rtpdepacketizer.cpp): aggregation headers,
  the cached sequence header, and the round trip of a temporal unit.
 */
module Av1Packets {
  import opened Options
  import opened Bits
  import opened RtpPacket
  import opened SequenceCheck
  import opened Av1Obu

  /** Whole temporal units, or single units handed over one by one. */
  datatype Packetization = PerObu | TemporalUnit

  const SEQUENCE_HEADER: nat := 1

  predicate IsSequenceHeader(obu: Bytes) {
    obu != [] && ObuType(obu[0]) == SEQUENCE_HEADER
  }

  // ---------------------------------------------------------------- packetizing

  /** The cached sequence header with its one-byte length, behind the aggregation header. */
  function Prelude(cached: Option<Bytes>): Bytes {
    if cached.None? then [] else [|cached.value| % 128] + cached.value
  }

  predicate Fits(cached: Option<Bytes>, max: nat) {
    max >= 2 && 1 + |Prelude(cached)| <= max
  }

  /** |Z|Y| W |N|-|-|-| */
  function AggregationHeader(z: bool, y: bool, cached: bool): Byte {
    (if z then 128 else 0) + (if y then 64 else 0) + (if cached then 32 + 8 else 16)
  }

  function PayloadFor(data: Bytes, cached: Option<Bytes>, z: bool, index: nat, e: nat): Bytes
    requires index <= e <= |data|
  {
    [AggregationHeader(z, e < |data|, cached.Some?)] + Prelude(cached) + data[index..e]
  }

  /** Where the next payload ends: as much of the unit as fits. */
  function EndFor(data: Bytes, cached: Option<Bytes>, max: nat, index: nat): (e: nat)
    requires index <= |data| && Fits(cached, max)
    ensures index <= e <= |data|
  {
    var room := max - 1 - |Prelude(cached)|;
    if index + room <= |data| then index + room else |data|
  }

  /** The payloads of one unit from `index` on, added to `acc`. */
  function FragmentsFrom(data: Bytes, cached: Option<Bytes>, max: nat, index: nat, acc: seq<Bytes>): seq<Bytes>
    requires index <= |data| && Fits(cached, max)
    decreases |data| - index, cached.Some?
  {
    if index == |data| then acc
    else
      var e := EndFor(data, cached, max, index);
      FragmentsFrom(data, None, max, e, acc + [PayloadFor(data, cached, acc != [], index, e)])
  }

  predicate Z(p: Bytes) requires p != [] { p[0] / 128 == 1 }

  predicate Y(p: Bytes) requires p != [] { p[0] / 64 % 2 == 1 }

  function W(p: Bytes): nat requires p != [] { p[0] / 16 % 4 }

  /** The payloads sent for a list of units and the sequence header left waiting. */
  datatype Sent = Sent(payloads: seq<Bytes>, cached: Option<Bytes>)

  predicate HeadersFit(obus: seq<Bytes>, max: nat) {
    forall i :: 0 <= i < |obus| ==> IsSequenceHeader(obus[i]) ==> Fits(Some(obus[i]), max)
  }

  function Packetized(obus: seq<Bytes>, cached: Option<Bytes>, max: nat, acc: seq<Bytes>): Sent
    requires Fits(cached, max) && HeadersFit(obus, max)
  {
    if obus == [] then Sent(acc, cached)
    else if IsSequenceHeader(obus[0]) then Packetized(obus[1..], Some(obus[0]), max, acc)
    else
      Packetized(obus[1..], if obus[0] == [] then cached else None, max,
                 acc + FragmentsFrom(obus[0], cached, max, 0, []))
  }

  /** The packetizer: a unit is cut up at once, a sequence header waits for the next unit. */
  class Packetizer {
    const max: nat
    var sequenceHeader: Option<Bytes>

    constructor (maxFragmentSize: nat)
      ensures max == maxFragmentSize && sequenceHeader == None
    {
      max := maxFragmentSize;
      sequenceHeader := None;
    }

    /** `fragmentObu` */
    method FragmentObu(data: Bytes) returns (payloads: seq<Bytes>)
      requires Fits(sequenceHeader, max)
      modifies this
      ensures IsSequenceHeader(data) ==> payloads == [] && sequenceHeader == Some(data)
      ensures !IsSequenceHeader(data) ==>
                && payloads == FragmentsFrom(data, old(sequenceHeader), max, 0, [])
                && sequenceHeader == if data == [] then old(sequenceHeader) else None
    {
      payloads := [];
      if data == [] {
        return;
      }
      if ObuType(data[0]) == SEQUENCE_HEADER {
        sequenceHeader := Some(data);
        return;
      }
      var index := 0;
      var remaining := |data|;
      while remaining > 0
        invariant index + remaining == |data| && 0 <= index && 0 <= remaining
        invariant Fits(sequenceHeader, max)
        invariant index == 0 || sequenceHeader.None?
        invariant FragmentsFrom(data, sequenceHeader, max, index, payloads) ==
                  FragmentsFrom(data, old(sequenceHeader), max, 0, [])
        decreases remaining, sequenceHeader.Some?
      {
        var prelude := Prelude(sequenceHeader);
        var metadata := 1 + |prelude|;
        var size := if max <= remaining + metadata then max else remaining + metadata;
        var room := size - metadata;
        var header := AggregationHeader(payloads != [], index + room < |data|, sequenceHeader.Some?);
        ghost var e := EndFor(data, sequenceHeader, max, index);
        assert index + room == e;
        payloads := payloads + [[header] + prelude + data[index..index + room]];
        sequenceHeader := None;
        remaining := remaining - room;
        index := index + room;
      }
    }

    /** `fragment`: none when the extraction throws. */
    method Fragment(mode: Packetization, data: Bytes) returns (r: Option<seq<Bytes>>)
      requires Fits(sequenceHeader, max)
      requires mode == TemporalUnit && Extract(data).Obus? ==> HeadersFit(Extract(data).list, max)
      modifies this
      ensures mode == TemporalUnit ==>
                && (r.None? <==> Extract(data).Throws?)
                && (r.Some? ==>
                      Sent(r.value, sequenceHeader) == Packetized(Extract(data).list, old(sequenceHeader), max, []))
      ensures mode == PerObu && HeadersFit([data], max) ==>
                r.Some? && Sent(r.value, sequenceHeader) == Packetized([data], old(sequenceHeader), max, [])
    {
      hide Extract, FragmentsFrom;
      if mode == TemporalUnit {
        var extraction := ExtractTemporalUnitObus(data);
        if extraction.Throws? {
          return None;
        }
        var payloads := FragmentAll(extraction.list);
        return Some(payloads);
      } else {
        var payloads := FragmentObu(data);
        assert [data][1..] == [] && [] + payloads == payloads;
        return Some(payloads);
      }
    }

    method FragmentAll(obus: seq<Bytes>) returns (result: seq<Bytes>)
      requires Fits(sequenceHeader, max) && HeadersFit(obus, max)
      modifies this
      ensures Sent(result, sequenceHeader) == Packetized(obus, old(sequenceHeader), max, [])
    {
      hide FragmentsFrom;
      result := [];
      for i := 0 to |obus|
        invariant Fits(sequenceHeader, max)
        invariant Packetized(obus[i..], sequenceHeader, max, result) == Packetized(obus, old(sequenceHeader), max, [])
      {
        assert obus[i..][1..] == obus[i + 1..];
        var fragments := FragmentObu(obus[i]);
        assert IsSequenceHeader(obus[i]) ==> result + fragments == result;
        result := result + fragments;
      }
    }
  }

  // ---------------------------------------------------------------- depacketizing

  datatype Length = BadLength | Length(value: nat, offset: nat)

  /** `parseLeb128`: at most four bytes. */
  function ReadLength4(p: Bytes, offset: nat, k: nat, value: nat, scale: nat): (r: Length)
    requires offset <= |p|
    ensures r.Length? ==> offset < r.offset <= |p|
    decreases 4 - k
  {
    if k >= 4 || offset == |p| then BadLength
    else
      var value' := value + scale * (p[offset] % 128);
      if p[offset] < 128 then Length(value', offset + 1)
      else ReadLength4(p, offset + 1, k + 1, value', 128 * scale)
  }

  /** Elements that all carry a length (W = 0). */
  function CountedElements(p: Bytes, offset: nat, acc: seq<Bytes>): seq<Bytes>
    requires offset <= |p|
    decreases |p| - offset
  {
    if offset == |p| then acc
    else
      var l := ReadLength4(p, offset, 0, 0, 1);
      if l.BadLength? || l.offset + l.value > |p| then acc
      else CountedElements(p, l.offset + l.value, acc + [p[l.offset..l.offset + l.value]])
  }

  /** `left` elements of which the last takes the rest (W > 0). */
  function RestElements(p: Bytes, offset: nat, left: nat, acc: seq<Bytes>): seq<Bytes>
    requires offset <= |p|
    decreases left
  {
    if left == 0 then acc
    else if left == 1 then acc + [p[offset..]]
    else
      var l := ReadLength4(p, offset, 0, 0, 1);
      if l.BadLength? || l.offset + l.value > |p| then acc
      else RestElements(p, l.offset + l.value, left - 1, acc + [p[l.offset..l.offset + l.value]])
  }

  function Elements(p: Bytes): seq<Bytes>
    requires p != []
  {
    if W(p) == 0 then CountedElements(p, 1, []) else RestElements(p, 1, W(p), [])
  }

  /** The frame so far and the fragment waiting for its continuation. */
  datatype State = State(frame: Bytes, pending: Bytes)

  function Emit(mode: Packetization, obu: Bytes): Bytes {
    if mode == TemporalUnit then WithSize(obu) else obu
  }

  /** Element `i` of `n`. */
  function TakeElement(mode: Packetization, st: State, element: Bytes, i: nat, n: nat, z: bool, y: bool): State {
    if i == 0 && z then
      if i == n - 1 && y then State(st.frame, st.pending + element)
      else State(st.frame + Emit(mode, st.pending + element), [])
    else if i == n - 1 && y then State(st.frame, st.pending + element)
    else State(st.frame + Emit(mode, element), st.pending)
  }

  function TakeElements(mode: Packetization, st: State, es: seq<Bytes>, z: bool, y: bool, i: nat): State
    requires i <= |es|
    decreases i
  {
    if i == 0 then st
    else TakeElement(mode, TakeElements(mode, st, es, z, y, i - 1), es[i - 1], i - 1, |es|, z, y)
  }

  function TakePayload(mode: Packetization, st: State, p: Bytes): State {
    if |p| <= 1 then st
    else TakeElements(mode, st, Elements(p), Z(p), Y(p), |Elements(p)|)
  }

  function Run(mode: Packetization, st: State, ps: seq<Bytes>): State {
    if ps == [] then st else TakePayload(mode, Run(mode, st, ps[..|ps| - 1]), ps[|ps| - 1])
  }

  datatype Outcome = NoFrame | Frame(bytes: Bytes)

  function Reassembled(mode: Packetization, packets: seq<Bytes>): Outcome
    requires AllReadable(packets)
  {
    var st := Run(mode, State([], []), PayloadsOf(packets));
    if st.frame == [] then NoFrame else Frame(st.frame)
  }

  method ParseLength(p: Bytes, offset: nat) returns (r: Length)
    requires offset <= |p|
    ensures r == ReadLength4(p, offset, 0, 0, 1)
  {
    var value: nat, scale: nat, at: nat := 0, 1, offset;
    var i := 0;
    while i < 4 && at < |p|
      invariant 0 <= i <= 4 && at <= |p|
      invariant ReadLength4(p, at, i, value, scale) == ReadLength4(p, offset, 0, 0, 1)
    {
      var b := p[at];
      at := at + 1;
      value := value + scale * (b % 128);
      if b < 128 {
        return Length(value, at);
      }
      scale := 128 * scale;
      i := i + 1;
    }
    return BadLength;
  }

  method ParseElements(p: Bytes) returns (elements: seq<Bytes>)
    requires p != []
    ensures elements == Elements(p)
  {
    hide ReadLength4;
    var offset: nat := 1;
    elements := [];
    if W(p) == 0 {
      while offset < |p|
        invariant offset <= |p|
        invariant CountedElements(p, offset, elements) == Elements(p)
      {
        var l := ParseLength(p, offset);
        if l.BadLength? || l.offset + l.value > |p| {
          return;
        }
        elements := elements + [p[l.offset..l.offset + l.value]];
        offset := l.offset + l.value;
      }
    } else {
      var i := 0;
      while i < W(p)
        invariant 0 <= i <= W(p) && offset <= |p|
        invariant RestElements(p, offset, W(p) - i, elements) == Elements(p)
      {
        if i < W(p) - 1 {
          var l := ParseLength(p, offset);
          if l.BadLength? || l.offset + l.value > |p| {
            return;
          }
          elements := elements + [p[l.offset..l.offset + l.value]];
          offset := l.offset + l.value;
        } else {
          elements := elements + [p[offset..]];
        }
        i := i + 1;
      }
    }
  }

  /** `reassemble` */
  method Reassemble(mode: Packetization, packets: seq<Bytes>) returns (r: Outcome)
    requires AllReadable(packets)
    ensures r == Reassembled(mode, packets)
  {
    hide Elements, Payload, Emit, W;
    ghost var ps := PayloadsOf(packets);
    var frame: Bytes, pending: Bytes := [], [];
    for k := 0 to |packets|
      invariant State(frame, pending) == Run(mode, State([], []), ps[..k])
    {
      assert ps[..k + 1][..k] == ps[..k];
      var payload := Payload(packets[k]);
      if |payload| <= 1 {
        continue;
      }
      var elements := ParseElements(payload);
      var z, y, n := Z(payload), Y(payload), |elements|;
      ghost var st := State(frame, pending);
      for i := 0 to n
        invariant State(frame, pending) == TakeElements(mode, st, elements, z, y, i)
      {
        if i == 0 && z {
          pending := pending + elements[i];
          if !(i == n - 1 && y) {
            frame := frame + Emit(mode, pending);
            pending := [];
          }
        } else if i == n - 1 && y {
          pending := pending + elements[i];
        } else {
          frame := frame + Emit(mode, elements[i]);
        }
      }
    }
    assert ps[..|packets|] == ps;
    r := if frame == [] then NoFrame else Frame(frame);
  }
}
