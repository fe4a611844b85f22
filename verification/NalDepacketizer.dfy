/**
  `reassemble` of src/h264rtpdepacketizer.cpp and src/h265rtpdepacketizer.cpp, and the
  guarantees that hold for the bytes it delivers.
 */
module NalDepacketizer {
  import opened Bits
  import opened StartCode
  import opened RtpPacket
  import opened SequenceCheck
  import opened NalAssembly
  import opened NalCodec
  import opened Fragmentation
  import opened NalFrames

  datatype Outcome = NoFrame | Frame(bytes: Bytes) | Throws

  function ParsedEvents(c: Codec, packets: seq<Bytes>): (es: seq<Event>)
    requires AllReadable(packets)
    ensures |es| == |packets|
  {
    seq(|packets|, i requires 0 <= i < |packets| =>
      assert Readable(packets[i]); c.Parse(Payload(packets[i])))
  }

  /** The frame that the units make up. */
  function Reassembled(c: Codec, sep: Separator, packets: seq<Bytes>): Outcome
    requires AllReadable(packets)
  {
    if packets == [] then NoFrame
    else
      match After(Seqs(packets), ParsedEvents(c, packets), |packets|)
      case Thrown => Throws
      case State(units, _) => Frame(Joined(sep, units))
  }

  lemma {:induction false} ThrownStays(seqs: seq<U16>, events: seq<Event>, i: nat, j: nat)
    requires i <= j <= |events| == |seqs| && After(seqs, events, i).Thrown?
    ensures After(seqs, events, j).Thrown?
    decreases j
  {
    if i < j {
      ThrownStays(seqs, events, i, j - 1);
    }
  }

  // ---------------------------------------------------------------- the code

  /** The loop over the units of a STAP-A or AP. */
  method AddAggregate(sep: Separator, body: Bytes, frame: Bytes, ghost units: seq<Bytes>)
    returns (ok: bool, frame': Bytes)
    requires frame == Joined(sep, units)
    ensures ok <==> ReadAggregate(body, 0, []).Units?
    ensures ok ==> frame' == Joined(sep, units + ReadAggregate(body, 0, []).list)
  {
    var offset := 0;
    frame' := frame;
    ghost var done: seq<Bytes> := [];
    assert units + done == units;
    while offset + 2 < |body|
      invariant 0 <= offset
      invariant frame' == Joined(sep, units + done)
      invariant ReadAggregate(body, offset, done) == ReadAggregate(body, 0, [])
    {
      var size := U16At(body, offset);
      offset := offset + 2;
      if offset + size > |body| {
        return false, frame';
      }
      ghost var unit := body[offset..offset + size];
      JoinedSnoc(sep, units + done, unit);
      assert (units + done) + [unit] == units + (done + [unit]);
      frame' := frame' + sep.Code();
      frame' := frame' + body[offset..offset + size];
      done := done + [unit];
      offset := offset + size;
    }
    ok := true;
  }

  /** The body of the packet loop, once the sequence number has been dealt with. */
  method Absorb(c: Codec, sep: Separator, payload: Bytes, frame: Bytes, continuous: bool, ghost units: seq<Bytes>)
    returns (ok: bool, frame': Bytes, continuous': bool)
    requires frame == Joined(sep, units) && (continuous ==> units != [])
    ensures var st := Step(State(units, continuous), Next, c.Parse(payload));
            && ok == st.State?
            && (ok ==> frame' == Joined(sep, st.units) && continuous' == st.continuous)
  {
    ok, frame', continuous' := true, frame, continuous;
    if payload == [] {
      return;
    }
    if |payload| < c.HeaderSize() {
      ok := false;
      return;
    }
    var t := c.UnitType(payload[0]);
    if t == c.FragmentType() {
      if |payload| > c.HeaderSize() {
        frame', continuous' := AbsorbFragment(c, sep, payload, frame, continuous, units);
      }
    } else {
      continuous' := false;
      if t == c.AggregateType() {
        ok, frame' := AddAggregate(sep, payload[c.HeaderSize()..], frame, units);
      } else if (c.H264? && 0 < t < 24) || (c.H265? && t < 47) {
        JoinedSnoc(sep, units, payload);
        frame' := frame' + sep.Code();
        frame' := frame' + payload;
      } else if c.H264? {
        ok := false;
      } else {
        assert units + [] == units;
      }
    }
  }

  /** A fragmentation unit: open, continue, close. */
  method AbsorbFragment(c: Codec, sep: Separator, payload: Bytes, frame: Bytes, continuous: bool, ghost units: seq<Bytes>)
    returns (frame': Bytes, continuous': bool)
    requires frame == Joined(sep, units) && (continuous ==> units != [])
    requires |payload| > c.HeaderSize() && c.UnitType(payload[0]) == c.FragmentType()
    ensures var st := Step(State(units, continuous), Next, c.Parse(payload));
            st.State? && frame' == Joined(sep, st.units) && continuous' == st.continuous
  {
    hide Joined, ReadAggregate;
    frame', continuous' := frame, continuous;
    ghost var grown := units;
    var fu := payload[c.HeaderSize()];
    if fu / 128 == 1 {
      JoinedSnoc(sep, units, c.Restored(payload));
      frame' := frame' + sep.Code();
      frame' := frame' + c.Restored(payload);
      grown := grown + [c.Restored(payload)];
      continuous' := true;
    }
    if continuous' {
      JoinedAppend(sep, grown, payload[c.Overhead()..]);
      frame' := frame' + payload[c.Overhead()..];
    }
    if fu / 64 % 2 == 1 {
      continuous' := false;
    }
  }

  method Reassemble(c: Codec, sep: Separator, packets: seq<Bytes>) returns (r: Outcome)
    requires AllReadable(packets)
    ensures r == Reassembled(c, sep, packets)
  {
    hide Codec.Parse, Payload, SeqNumber, Joined;
    if packets == [] {
      return NoFrame;
    }
    ghost var seqs, events := Seqs(packets), ParsedEvents(c, packets);
    var nextSeqNumber := SeqNumber(packets[0]);
    var frame: Bytes := [];
    var continuous := false;
    ghost var units: seq<Bytes> := [];
    JoinedNone(sep);
    for i := 0 to |packets|
      invariant nextSeqNumber == Expected(seqs, i)
      invariant After(seqs, events, i) == State(units, continuous)
      invariant frame == Joined(sep, units)
    {
      ContinuousHasUnit(seqs, events, i);
      var s := SeqNumber(packets[i]);
      if s < nextSeqNumber {
        continue;
      }
      if s > nextSeqNumber {
        continuous := false;
      }
      nextSeqNumber := Succ16(s);
      GapIsReset(After(seqs, events, i), VerdictOf(seqs, i), events[i]);
      var ok;
      ok, frame, continuous := Absorb(c, sep, Payload(packets[i]), frame, continuous, units);
      if !ok {
        ThrownStays(seqs, events, i + 1, |packets|);
        return Throws;
      }
      units := After(seqs, events, i + 1).units;
    }
    r := Frame(frame);
  }

  lemma JoinedNone(sep: Separator)
    ensures Joined(sep, []) == []
  {
  }

  /** A gap does the same as forgetting the continuity beforehand. */
  lemma GapIsReset(st: State, v: Verdict, e: Event)
    requires st.State? && v != Skip
    ensures Step(st, v, e) == Step(State(st.units, st.continuous && v == Next), Next, e)
  {
  }

  // ---------------------------------------------------------------- what is delivered

  lemma CarriedEvents(c: Codec, ps: seq<Piece>, packets: seq<Bytes>, first: nat, at: seq<nat>)
    requires Parsed(c, ps) && Carries(packets, Payloads(ps), first, at)
    ensures Seqs(packets) == Wire(Numbers(first, at))
    ensures ParsedEvents(c, packets) == Events(ps, at)
  {
    hide Codec.Parse, Payload, SeqNumber, Readable;
  }

  lemma {:induction false} PrefixOfCodeFree(sep: Separator, units: seq<Bytes>, delivered: seq<Bytes>, who: seq<nat>)
    requires Survives(units, delivered, who)
    requires forall u :: u in units ==> CodeFree(sep, u)
    ensures forall u :: u in delivered ==> CodeFree(sep, u)
  {
    forall u | u in delivered
      ensures CodeFree(sep, u)
    {
      var i :| 0 <= i < |delivered| && delivered[i] == u;
      var whole := units[who[i]];
      assert whole in units;
      PrefixCodeFree(sep, whole, |u|);
      assert whole[..|u|] == u;
    }
  }

  /** Pieces that are parsed as such, all of them in order, come back as the units. */
  lemma CutArrives(c: Codec, sep: Separator, units: seq<Bytes>, ps: seq<Piece>, first: nat, packets: seq<Bytes>)
    requires Cut(units, ps) && Parsed(c, ps) && 0 < |ps| <= 65536
    requires Carries(packets, Payloads(ps), first, All(|ps|))
    ensures Reassembled(c, sep, packets) == Frame(Joined(sep, units))
  {
    hide Payloads, Carries, Seqs, ParsedEvents, Cut, Parsed, After, Joined;
    CarriedEvents(c, ps, packets, first, All(|ps|));
    Lossless(units, ps, first);
  }

  /** Any part of them comes back as prefixes of distinct units. */
  lemma CutPartArrives(c: Codec, sep: Separator, units: seq<Bytes>, ps: seq<Piece>, first: nat, at: seq<nat>, packets: seq<Bytes>)
    returns (delivered: seq<Bytes>, who: seq<nat>)
    requires Cut(units, ps) && Parsed(c, ps) && Positions(|ps|, at)
    requires Carries(packets, Payloads(ps), first, at)
    ensures Reassembled(c, sep, packets) == Frame(Joined(sep, delivered)) && Survives(units, delivered, who)
  {
    hide Payloads, Seqs, ParsedEvents, Cut, Parsed, After, Joined, Survives;
    CarriedEvents(c, ps, packets, first, at);
    LossSafe(units, ps, first, at);
    delivered := After(Seqs(packets), ParsedEvents(c, packets), |packets|).units;
    who :| Survives(units, delivered, who);
  }

  /**
    End to end: the units of any frame, cut to the maximum size, numbered contiguously from any
    number, carried and reassembled, come back as the very same list of units, and splitting the
    reassembled frame finds them again.
   */
  lemma EndToEnd(c: Codec, sep: Separator, frame: Bytes, max: nat, first: nat, packets: seq<Bytes>)
    requires AllPass(c, Split(sep, frame)) && AllCuttable(c, Split(sep, frame), max)
    requires var payloads := Payloads(CutAll(c, Split(sep, frame), max));
             |payloads| <= 65536 && Carries(packets, payloads, first, All(|payloads|))
    ensures Reassembled(c, sep, packets) == Frame(Joined(sep, Split(sep, frame)))
    ensures Split(sep, Reassembled(c, sep, packets).bytes) == Split(sep, frame)
  {
    hide CutAll, Payloads, Carries, Cut, Faithful, Parsed, Reassembled;
    var units := Split(sep, frame);
    SplitIsCodeFree(sep, frame);
    FragmentationIsACut(c, max, units);
    CutIsNotEmpty(c, max, units);
    CutArrives(c, sep, units, CutAll(c, units, max), first, packets);
    SplitJoined(sep, units);
  }

  /** Whatever subset of the packets arrives, splitting the result finds prefixes of distinct units. */
  lemma LossEndToEnd(c: Codec, sep: Separator, frame: Bytes, max: nat, first: nat, at: seq<nat>, packets: seq<Bytes>)
    returns (delivered: seq<Bytes>, who: seq<nat>)
    requires AllPass(c, Split(sep, frame)) && AllCuttable(c, Split(sep, frame), max)
    requires var ps := CutAll(c, Split(sep, frame), max);
             Positions(|ps|, at) && Carries(packets, Payloads(ps), first, at)
    ensures Reassembled(c, sep, packets) == Frame(Joined(sep, delivered))
    ensures Survives(Split(sep, frame), delivered, who)
    ensures delivered != [] ==> Split(sep, Joined(sep, delivered)) == delivered
  {
    hide CutAll, Payloads, Cut, Faithful, Parsed, Reassembled, Split, CodeFree, Survives;
    var units := Split(sep, frame);
    SplitIsCodeFree(sep, frame);
    FragmentationIsACut(c, max, units);
    delivered, who := CutPartArrives(c, sep, units, CutAll(c, units, max), first, at, packets);
    PrefixOfCodeFree(sep, units, delivered, who);
    if delivered != [] {
      SplitJoined(sep, delivered);
    }
  }

  // ---------------------------------------------------------------- other senders

  /**
    A payload that any sender may use for its piece: a unit as it is, an aggregation packet with
    several, or a fragment of a unit.
   */
  ghost predicate SentAs(c: Codec, units: seq<Bytes>, p: Piece) {
    match p.event
    case Whole(us) =>
      || (us == [p.payload] && c.PassesThrough(p.payload))
      || (&& AllShort(us) && us != [] && us[|us| - 1] != []
          && |p.payload| >= c.HeaderSize() && IsAggregateHeader(c, p.payload[..c.HeaderSize()])
          && p.payload[c.HeaderSize()..] == AggregateBody(us))
    case Fragment(start, end, header, data) =>
      && p.owner < |units| && c.PassesThrough(units[p.owner]) && header == units[p.owner][..c.HeaderSize()]
      && p.payload == c.Wrap(units[p.owner], start, end, data)
    case _ => false
  }

  lemma SentIsParsed(c: Codec, units: seq<Bytes>, p: Piece)
    requires SentAs(c, units, p)
    ensures c.Parse(p.payload) == p.event
  {
    hide ReadAggregate, AggregateBody, Codec.Parse, Codec.Wrap, Codec.PassesThrough;
    match p.event
    case Whole(us) =>
      if us == [p.payload] && c.PassesThrough(p.payload) {
        ParseWhole(c, p.payload);
      } else {
        var header := p.payload[..c.HeaderSize()];
        ParseAggregate(c, header, us, []);
        assert header + AggregateBody(us) + [] == p.payload;
      }
    case Fragment(start, end, header, data) =>
      ParseWrap(c, units[p.owner], start, end, data);
  }

  /** Several units in one aggregation packet are such a piece. */
  lemma GatheredArrives(c: Codec, sep: Separator, header: Bytes, units: seq<Bytes>, first: nat, packets: seq<Bytes>)
    requires IsAggregateHeader(c, header) && AllShort(units) && units != [] && units[|units| - 1] != []
    requires Carries(packets, [header + AggregateBody(units)], first, [0])
    ensures Reassembled(c, sep, packets) == Frame(Joined(sep, units))
  {
    var p := Piece(header + AggregateBody(units), Whole(units), |units| - 1, units[|units| - 1]);
    hide AggregateBody, IsAggregateHeader, Joined, Carries;
    HeaderLength(c, header);
    assert p.payload[..c.HeaderSize()] == header && p.payload[c.HeaderSize()..] == AggregateBody(units);
    assert units[0..|units|] == units;
    assert WellCut(units, [p], 0);
    assert Payloads([p]) == [p.payload] && All(1) == [0];
    AnySenderArrives(c, sep, units, [p], first, packets);
  }

  lemma HeaderLength(c: Codec, header: Bytes)
    requires IsAggregateHeader(c, header)
    ensures |header| == c.HeaderSize()
  {
  }

  /** Nothing comes of an empty buffer. */
  lemma NothingFromNothing(c: Codec, sep: Separator)
    ensures Reassembled(c, sep, []) == NoFrame
  {
  }

  ghost predicate AllSent(c: Codec, units: seq<Bytes>, ps: seq<Piece>) {
    forall q :: 0 <= q < |ps| ==> SentAs(c, units, ps[q])
  }

  lemma AllSentIsParsed(c: Codec, units: seq<Bytes>, ps: seq<Piece>)
    requires AllSent(c, units, ps)
    ensures Parsed(c, ps)
  {
    hide SentAs, Codec.Parse;
    forall q | 0 <= q < |ps|
      ensures c.Parse(ps[q].payload) == ps[q].event
    {
      SentIsParsed(c, units, ps[q]);
    }
  }

  /**
    However a sender cuts a frame's units into fragments and gathers them in aggregation packets:
    all packets, in order, give back exactly the units.
   */
  lemma AnySenderArrives(c: Codec, sep: Separator, units: seq<Bytes>, ps: seq<Piece>, first: nat, packets: seq<Bytes>)
    requires Cut(units, ps) && AllSent(c, units, ps) && 0 < |ps| <= 65536
    requires Carries(packets, Payloads(ps), first, All(|ps|))
    ensures Reassembled(c, sep, packets) == Frame(Joined(sep, units))
  {
    hide Payloads, Carries, Cut, AllSent, Parsed, Reassembled;
    AllSentIsParsed(c, units, ps);
    CutArrives(c, sep, units, ps, first, packets);
  }

  /** And any part of them gives prefixes of distinct units, in order. */
  lemma AnySenderPartArrives(c: Codec, sep: Separator, units: seq<Bytes>, ps: seq<Piece>, first: nat, at: seq<nat>, packets: seq<Bytes>)
    returns (delivered: seq<Bytes>, who: seq<nat>)
    requires Cut(units, ps) && AllSent(c, units, ps) && Positions(|ps|, at)
    requires Carries(packets, Payloads(ps), first, at)
    ensures Reassembled(c, sep, packets) == Frame(Joined(sep, delivered)) && Survives(units, delivered, who)
  {
    hide Payloads, Carries, Cut, AllSent, Parsed, Reassembled, Survives;
    AllSentIsParsed(c, units, ps);
    delivered, who := CutPartArrives(c, sep, units, ps, first, at, packets);
  }
}
