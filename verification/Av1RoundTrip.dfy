/**
  AV1 end to end: which units of a temporal unit reach the receiver, and in what form.
 */
module Av1RoundTrip {
  import opened Bits
  import opened Options
  import opened RtpPacket
  import opened SequenceCheck
  import opened Av1Obu
  import opened Av1Packets

  // ---------------------------------------------------------------- one payload

  /** A one-byte length is read as such. */
  lemma ShortLength(p: Bytes, offset: nat)
    requires offset < |p| && p[offset] < 128
    ensures ReadLength4(p, offset, 0, 0, 1) == Length(p[offset], offset + 1)
  {
  }

  lemma ElementsOfPlain(data: Bytes, z: bool, index: nat, e: nat)
    requires index <= e <= |data|
    ensures Elements(PayloadFor(data, None, z, index, e)) == [data[index..e]]
  {
    var p := PayloadFor(data, None, z, index, e);
    assert W(p) == 1;
    assert p[1..] == data[index..e];
    assert [] + [p[1..]] == [p[1..]];
  }

  lemma ElementsWithHeader(data: Bytes, header: Bytes, z: bool, index: nat, e: nat)
    requires index <= e <= |data| && |header| <= 127
    ensures Elements(PayloadFor(data, Some(header), z, index, e)) == [header, data[index..e]]
  {
    var p := PayloadFor(data, Some(header), z, index, e);
    var n := |header|;
    assert W(p) == 2;
    assert p[1] == n;
    assert p[2..2 + n] == header && p[2 + n..] == data[index..e];
    ShortLength(p, 1);
    assert RestElements(p, 1, 2, []) == RestElements(p, 2 + n, 1, [] + [p[2..2 + n]]);
  }

  /**
    The receiver finds a cached sequence header and the unit's piece behind it if and only if the
    header is at most 127 bytes long: its length is sent in seven bits.
   */
  lemma HeaderIsFoundIff(data: Bytes, header: Bytes, z: bool, index: nat, e: nat)
    requires index <= e <= |data|
    ensures Elements(PayloadFor(data, Some(header), z, index, e)) == [header, data[index..e]] <==> |header| <= 127
  {
    if |header| <= 127 {
      ElementsWithHeader(data, header, z, index, e);
    } else {
      LongHeaderIsCut(data, header, z, index, e);
    }
  }

  /** Of a longer header only the first bytes, their number modulo 128, are taken for it. */
  lemma LongHeaderIsCut(data: Bytes, header: Bytes, z: bool, index: nat, e: nat)
    requires index <= e <= |data| && |header| > 127
    ensures var n := |header| % 128;
            Elements(PayloadFor(data, Some(header), z, index, e)) == [header[..n], header[n..] + data[index..e]]
  {
    hide RestElements, ReadLength4;
    var n := |header| % 128;
    var part := data[index..e];
    var h := AggregationHeader(z, e < |data|, true);
    var p := [h, n] + (header + part);
    assert PayloadFor(data, Some(header), z, index, e) == p;
    assert W(p) == 2;
    CutInside(h, n, header, part);
    TwoElements(p, n, header[..n], header[n..] + part);
  }

  lemma CutInside(h: Byte, n: Byte, header: Bytes, part: Bytes)
    requires n <= |header|
    ensures [h, n] + (header + part) == [h, n] + header[..n] + (header[n..] + part)
  {
    assert header == header[..n] + header[n..];
  }

  /** A one-byte length, that many bytes, and the rest. */
  lemma TwoElements(p: Bytes, n: nat, a: Bytes, b: Bytes)
    requires n < 128 && |a| == n && |p| >= 2 && p[1] == n && p == [p[0], p[1]] + a + b
    ensures RestElements(p, 1, 2, []) == [a, b]
  {
    assert p[2..2 + n] == a && p[2 + n..] == b;
    ShortLength(p, 1);
    assert RestElements(p, 1, 2, []) == RestElements(p, 2 + n, 1, [] + [a]);
  }

  lemma PayloadBits(data: Bytes, cached: Option<Bytes>, z: bool, index: nat, e: nat)
    requires index <= e <= |data|
    ensures var p := PayloadFor(data, cached, z, index, e);
            && p != [] && Z(p) == z && Y(p) == (e < |data|)
            && |p| == 1 + |Prelude(cached)| + (e - index)
  {
    var p := PayloadFor(data, cached, z, index, e);
    assert p[0] == AggregationHeader(z, e < |data|, cached.Some?);
  }

  /** What the receiver holds once the unit has been taken up to `e`, having held `before` of it. */
  function Taken(mode: Packetization, frame: Bytes, data: Bytes, before: Bytes, index: nat, e: nat): State
    requires index <= e <= |data|
  {
    if e < |data| then State(frame, before + data[index..e])
    else State(frame + Emit(mode, before + data[index..e]), [])
  }

  /** A continuation, or a first payload without sequence header. */
  lemma TakePlain(mode: Packetization, st: State, data: Bytes, z: bool, index: nat, e: nat)
    requires index < e <= |data| && (!z ==> st.pending == [])
    ensures TakePayload(mode, st, PayloadFor(data, None, z, index, e)) ==
            Taken(mode, st.frame, data, st.pending, index, e)
  {
    hide Emit, Elements, PayloadFor, Z, Y;
    var p, part := PayloadFor(data, None, z, index, e), data[index..e];
    PayloadBits(data, None, z, index, e);
    ElementsOfPlain(data, z, index, e);
    assert [] + part == part;
    assert TakeElements(mode, st, [part], z, Y(p), 1) ==
           TakeElement(mode, TakeElements(mode, st, [part], z, Y(p), 0), part, 0, 1, z, Y(p));
  }

  /** A first payload that brings the sequence header along. */
  lemma TakeWithHeader(mode: Packetization, frame: Bytes, data: Bytes, header: Bytes, e: nat)
    requires e <= |data| && 0 < |header| <= 127
    ensures TakePayload(mode, State(frame, []), PayloadFor(data, Some(header), false, 0, e)) ==
            Taken(mode, frame + Emit(mode, header), data, [], 0, e)
  {
    hide Emit, Elements, PayloadFor, Z, Y;
    var p, part := PayloadFor(data, Some(header), false, 0, e), data[0..e];
    PayloadBits(data, Some(header), false, 0, e);
    ElementsWithHeader(data, header, false, 0, e);
    assert [] + part == part;
    var es, st := [header, part], State(frame, []);
    var y := Y(p);
    assert TakeElements(mode, st, es, false, y, 0) == st;
    assert TakeElements(mode, st, es, false, y, 1) == State(frame + Emit(mode, header), []);
    assert TakeElements(mode, st, es, false, y, 2) ==
           TakeElement(mode, State(frame + Emit(mode, header), []), part, 1, 2, false, y);
  }

  // ---------------------------------------------------------------- aggregation headers

  /**
    A payload that keeps to the maximum, whose W counts the elements that a receiver parses, whose
    N is set just when a sequence header is in front, and whose other bits are zero.
   */
  ghost predicate Sound(p: Bytes, max: nat) {
    && p != [] && |p| <= max && W(p) == |Elements(p)|
    && (p[0] / 8 % 2 == 1 <==> W(p) == 2) && p[0] % 8 == 0
  }

  predicate Continues(p: Bytes) { p != [] && Z(p) }

  predicate Continued(p: Bytes) { p != [] && Y(p) }

  /** Payload `i` starts with a continuation just when the one before is continued. */
  predicate Linked(ps: seq<Bytes>, i: nat)
    requires i < |ps|
  {
    Continues(ps[i]) == (i > 0 && Continued(ps[i - 1]))
  }

  /**
    Section 4.4 of the AV1 RTP specification, on consecutive payloads: a payload starts with a
    continuation just when the one before is continued; the last one is continued iff `open`.
   */
  ghost predicate Lawful(ps: seq<Bytes>, max: nat, open: bool) {
    && (forall i :: 0 <= i < |ps| ==> Sound(ps[i], max))
    && (forall i :: 0 <= i < |ps| ==> Linked(ps, i))
    && (ps != [] ==> Continued(ps[|ps| - 1]) == open)
  }

  lemma PayloadIsSound(data: Bytes, cached: Option<Bytes>, z: bool, index: nat, max: nat)
    requires index < |data| && Fits(cached, max) && ShortHeader(cached)
    ensures Sound(PayloadFor(data, cached, z, index, EndFor(data, cached, max, index)), max)
  {
    var e := EndFor(data, cached, max, index);
    PayloadBits(data, cached, z, index, e);
    if cached.None? {
      ElementsOfPlain(data, z, index, e);
    } else {
      ElementsWithHeader(data, cached.value, z, index, e);
    }
    hide Elements;
  }

  lemma LawfulSnoc(ps: seq<Bytes>, max: nat, p: Bytes, open: bool)
    requires Lawful(ps, max, true) && Sound(p, max) && Continues(p) == (ps != []) && Continued(p) == open
    ensures Lawful(ps + [p], max, open)
  {
    hide Sound, Continues, Continued;
    var c := ps + [p];
    forall i | 0 <= i < |c|
      ensures Linked(c, i)
    {
      assert i < |ps| ==> Linked(ps, i);
    }
  }

  lemma LawfulConcat(a: seq<Bytes>, b: seq<Bytes>, max: nat)
    requires Lawful(a, max, false) && Lawful(b, max, false)
    ensures Lawful(a + b, max, false)
  {
    hide Sound, Continues, Continued;
    var c := a + b;
    forall i | 0 <= i < |c|
      ensures Linked(c, i)
    {
      if i < |a| {
        assert Linked(a, i);
      } else {
        assert Linked(b, i - |a|);
      }
    }
  }

  /** The payloads of one unit. */
  lemma {:induction false} UnitIsLawful(data: Bytes, cached: Option<Bytes>, max: nat, index: nat, acc: seq<Bytes>)
    requires index <= |data| && Fits(cached, max) && ShortHeader(cached)
    requires Lawful(acc, max, index < |data|)
    ensures Lawful(FragmentsFrom(data, cached, max, index, acc), max, false)
    decreases |data| - index, cached.Some?
  {
    if index < |data| {
      var e := EndFor(data, cached, max, index);
      var p := PayloadFor(data, cached, acc != [], index, e);
      PayloadBits(data, cached, acc != [], index, e);
      PayloadIsSound(data, cached, acc != [], index, max);
      hide Lawful, Sound, PayloadFor, Z, Y;
      assert Continues(p) == (acc != []) && Continued(p) == (e < |data|);
      LawfulSnoc(acc, max, p, e < |data|);
      NoneFits(cached, max);
      UnitIsLawful(data, None, max, e, acc + [p]);
    }
  }

  /** All payloads of a list of units, one after the other, obey the law and the maximum. */
  lemma {:induction false} PayloadsAreLawful(obus: seq<Bytes>, cached: Option<Bytes>, max: nat, acc: seq<Bytes>)
    requires UnitsFine(obus, max) && Fits(cached, max) && ShortHeader(cached) && Lawful(acc, max, false)
    ensures Lawful(Packetized(obus, cached, max, acc).payloads, max, false)
    decreases |obus|
  {
    if obus != [] {
      TailFine(obus, max);
      assert obus[0] != [] && (IsSequenceHeader(obus[0]) ==> Fits(Some(obus[0]), max) && ShortHeader(Some(obus[0])));
      hide FragmentsFrom, IsSequenceHeader, Fits, Lawful, UnitsFine, ShortHeader;
      if IsSequenceHeader(obus[0]) {
        PayloadsAreLawful(obus[1..], Some(obus[0]), max, acc);
      } else {
        NothingIsLawful(max);
        UnitIsLawful(obus[0], cached, max, 0, []);
        var fragments := FragmentsFrom(obus[0], cached, max, 0, []);
        LawfulConcat(acc, fragments, max);
        NoneFits(cached, max);
        PayloadsAreLawful(obus[1..], None, max, acc + fragments);
      }
    }
  }

  lemma NothingIsLawful(max: nat)
    ensures Lawful([], max, true) && Lawful([], max, false) && ShortHeader(None)
  {
  }

  // ---------------------------------------------------------------- one unit

  lemma RunSnoc(mode: Packetization, st: State, ps: seq<Bytes>, p: Bytes)
    ensures Run(mode, st, ps + [p]) == TakePayload(mode, Run(mode, st, ps), p)
  {
    assert (ps + [p])[..|ps|] == ps;
  }

  /** The continuation payloads of a unit of which `index` bytes have been taken. */
  lemma {:induction false} RunContinuations(mode: Packetization, st: State, data: Bytes, max: nat, index: nat, acc: seq<Bytes>, frame: Bytes)
    requires index <= |data| && max >= 2 && acc != []
    requires Run(mode, st, acc) == Taken(mode, frame, data, [], 0, index)
    ensures Run(mode, st, FragmentsFrom(data, None, max, index, acc)) ==
            State(frame + Emit(mode, data), [])
    decreases |data| - index
  {
    hide Emit, TakePayload, PayloadFor;
    if index == |data| {
      assert [] + data[0..index] == data;
    } else {
      var e := EndFor(data, None, max, index);
      var p := PayloadFor(data, None, true, index, e);
      assert [] + data[0..index] == data[0..index];
      TakePlain(mode, Run(mode, st, acc), data, true, index, e);
      RunSnoc(mode, st, acc, p);
      assert data[0..index] + data[index..e] == [] + data[0..e];
      RunContinuations(mode, st, data, max, e, acc + [p], frame);
    }
  }

  function Cached(mode: Packetization, cached: Option<Bytes>): Bytes {
    if cached.Some? then Emit(mode, cached.value) else []
  }

  ghost predicate ShortHeader(cached: Option<Bytes>) {
    cached.Some? ==> 0 < |cached.value| <= 127
  }

  /** All payloads of one unit hand on the cached sequence header, then the unit. */
  lemma RunUnit(mode: Packetization, frame: Bytes, data: Bytes, cached: Option<Bytes>, max: nat)
    requires data != [] && Fits(cached, max) && ShortHeader(cached)
    ensures Run(mode, State(frame, []), FragmentsFrom(data, cached, max, 0, [])) ==
            State(frame + Cached(mode, cached) + Emit(mode, data), [])
  {
    hide Emit, TakePayload, PayloadFor;
    var st := State(frame, []);
    var e := EndFor(data, cached, max, 0);
    var p := PayloadFor(data, cached, false, 0, e);
    RunSnoc(mode, st, [], p);
    assert [] + [p] == [p];
    if cached.None? {
      TakePlain(mode, st, data, false, 0, e);
      assert frame + [] == frame;
    } else {
      TakeWithHeader(mode, frame, data, cached.value, e);
    }
    RunContinuations(mode, st, data, max, e, [p], frame + Cached(mode, cached));
  }

  // ---------------------------------------------------------------- a list of units

  lemma {:induction false} RunConcat(mode: Packetization, st: State, a: seq<Bytes>, b: seq<Bytes>)
    ensures Run(mode, st, a + b) == Run(mode, Run(mode, st, a), b)
    decreases |b|
  {
    hide TakePayload;
    if b == [] {
      assert a + b == a;
    } else {
      var b' := b[..|b| - 1];
      RunConcat(mode, st, a, b');
      assert (a + b)[..|a + b| - 1] == a + b';
    }
  }

  /** The units that are sent: a sequence header only together with the unit that follows it. */
  function Carried(obus: seq<Bytes>, cached: Option<Bytes>): seq<Bytes> {
    if obus == [] then []
    else if IsSequenceHeader(obus[0]) then Carried(obus[1..], Some(obus[0]))
    else (if cached.Some? then [cached.value] else []) + ([obus[0]] + Carried(obus[1..], None))
  }

  function EmitAll(mode: Packetization, obus: seq<Bytes>): Bytes {
    if obus == [] then [] else Emit(mode, obus[0]) + EmitAll(mode, obus[1..])
  }

  ghost predicate UnitsFine(obus: seq<Bytes>, max: nat) {
    && HeadersFit(obus, max)
    && forall i :: 0 <= i < |obus| ==> obus[i] != [] && (IsSequenceHeader(obus[i]) ==> |obus[i]| <= 127)
  }

  lemma EmitCons(mode: Packetization, obu: Bytes, rest: seq<Bytes>)
    ensures EmitAll(mode, [obu] + rest) == Emit(mode, obu) + EmitAll(mode, rest)
  {
    assert ([obu] + rest)[1..] == rest;
  }

  lemma EmitCarried(mode: Packetization, frame: Bytes, obus: seq<Bytes>, cached: Option<Bytes>)
    requires obus != [] && !IsSequenceHeader(obus[0])
    ensures frame + EmitAll(mode, Carried(obus, cached)) ==
            (frame + Cached(mode, cached) + Emit(mode, obus[0])) + EmitAll(mode, Carried(obus[1..], None))
  {
    hide Emit, EmitAll;
    var rest := Carried(obus[1..], None);
    EmitCons(mode, obus[0], rest);
    var x, y, z := Cached(mode, cached), Emit(mode, obus[0]), EmitAll(mode, rest);
    assert frame + (x + (y + z)) == (frame + x + y) + z;
    if cached.Some? {
      EmitCons(mode, cached.value, [obus[0]] + rest);
    } else {
      assert [] + ([obus[0]] + rest) == [obus[0]] + rest;
      assert [] + (y + z) == y + z;
    }
  }

  lemma TailFine(obus: seq<Bytes>, max: nat)
    requires UnitsFine(obus, max) && obus != []
    ensures UnitsFine(obus[1..], max)
  {
    hide IsSequenceHeader, Fits;
  }

  /** The receiver hands on exactly the carried units, in order. */
  lemma {:induction false} RunUnits(mode: Packetization, frame: Bytes, obus: seq<Bytes>, cached: Option<Bytes>, max: nat, st: State, acc: seq<Bytes>)
    requires UnitsFine(obus, max) && Fits(cached, max) && ShortHeader(cached)
    requires Run(mode, st, acc) == State(frame, [])
    ensures Run(mode, st, Packetized(obus, cached, max, acc).payloads) ==
            State(frame + EmitAll(mode, Carried(obus, cached)), [])
    decreases |obus|
  {
    if obus == [] {
      assert frame + [] == frame;
    } else {
      hide Emit, FragmentsFrom, Run, IsSequenceHeader, EmitAll, Fits;
      TailFine(obus, max);
      assert obus[0] != [];
      if IsSequenceHeader(obus[0]) {
        assert Fits(Some(obus[0]), max);
        RunUnits(mode, frame, obus[1..], Some(obus[0]), max, st, acc);
      } else {
        var fragments := FragmentsFrom(obus[0], cached, max, 0, []);
        RunUnit(mode, frame, obus[0], cached, max);
        RunConcat(mode, st, acc, fragments);
        var frame' := frame + Cached(mode, cached) + Emit(mode, obus[0]);
        NoneFits(cached, max);
        RunUnits(mode, frame', obus[1..], None, max, st, acc + fragments);
        EmitCarried(mode, frame, obus, cached);
      }
    }
  }

  lemma NoneFits(cached: Option<Bytes>, max: nat)
    requires Fits(cached, max)
    ensures Fits(None, max)
  {
  }

  /** Sequence headers are the units of type 1. */
  lemma SequenceHeaderIff(o: Obu)
    requires o.Valid()
    ensures IsSequenceHeader(o.Bare()) <==> o.header / 8 % 16 == 1
  {
  }

  /** Each sequence header is directly followed by a unit that is not one. */
  ghost predicate HeadersFollowed(obus: seq<Bytes>) {
    forall i :: 0 <= i < |obus| && IsSequenceHeader(obus[i]) ==> i + 1 < |obus| && !IsSequenceHeader(obus[i + 1])
  }

  lemma {:induction false} CarriedLength(obus: seq<Bytes>, cached: Option<Bytes>)
    ensures |Carried(obus, cached)| <= |obus| + (if cached.Some? then 1 else 0)
    ensures cached.Some? && (obus == [] || IsSequenceHeader(obus[0])) ==> |Carried(obus, cached)| <= |obus|
  {
    if obus != [] {
      CarriedLength(obus[1..], if IsSequenceHeader(obus[0]) then Some(obus[0]) else None);
    }
  }

  lemma FollowedTail(obus: seq<Bytes>)
    requires HeadersFollowed(obus) && obus != []
    ensures HeadersFollowed(obus[1..])
  {
    var t := obus[1..];
    forall i | 0 <= i < |t| && IsSequenceHeader(t[i])
      ensures i + 1 < |t| && !IsSequenceHeader(t[i + 1])
    {
      assert t[i] == obus[i + 1];
    }
  }

  /** Nothing is dropped if and only if every sequence header is directly followed by another kind of unit. */
  lemma {:induction false} CarriedIffFollowed(obus: seq<Bytes>)
    ensures Carried(obus, None) == obus <==> HeadersFollowed(obus)
    decreases |obus|
  {
    if obus != [] {
      var rest := obus[1..];
      assert obus == [obus[0]] + rest;
      if !IsSequenceHeader(obus[0]) {
        CarriedIffFollowed(rest);
        FollowedCons(obus);
        assert Carried(obus, None) == [obus[0]] + Carried(rest, None);
        assert Carried(obus, None)[1..] == Carried(rest, None);
      } else if rest == [] || IsSequenceHeader(rest[0]) {
        CarriedLength(rest, Some(obus[0]));
      } else {
        var rest2 := rest[1..];
        CarriedIffFollowed(rest2);
        FollowedCons(obus);
        FollowedCons(rest);
        assert Carried(obus, None) == [obus[0]] + ([rest[0]] + Carried(rest2, None));
        assert Carried(obus, None)[2..] == Carried(rest2, None);
        assert obus[2..] == rest2 && obus == [obus[0]] + ([rest[0]] + rest2);
      }
    }
  }

  lemma FollowedCons(obus: seq<Bytes>)
    requires obus != []
    requires IsSequenceHeader(obus[0]) ==> |obus| > 1 && !IsSequenceHeader(obus[1])
    ensures HeadersFollowed(obus) <==> HeadersFollowed(obus[1..])
  {
    if HeadersFollowed(obus) {
      FollowedTail(obus);
    }
    if HeadersFollowed(obus[1..]) {
      forall i | 0 <= i < |obus| && IsSequenceHeader(obus[i])
        ensures i + 1 < |obus| && !IsSequenceHeader(obus[i + 1])
      {
        if i > 0 {
          assert obus[1..][i - 1] == obus[i];
        }
      }
    }
  }

  /** A sequence header at the end of its temporal unit is not sent with it. */
  lemma UnfollowedHeaderExample()
    ensures IsSequenceHeader([8]) && !HeadersFollowed([[8]]) && Carried([[8]], None) == []
  {
    assert !HeadersFollowed([[8]]) by {
      assert IsSequenceHeader([[8]][0]);
    }
    assert Carried([[8]], None) == Carried([[8]][1..], Some([8]));
  }

  // ---------------------------------------------------------------- the temporal unit

  /** The input of `fragment`: an optional temporal delimiter and the units. */
  function Unit(delimited: bool, items: seq<Item>): Bytes {
    (if delimited then DELIMITER else []) + Serialized(items)
  }

  /** No unit is mistaken for the delimiter. */
  ghost predicate Unambiguous(delimited: bool, items: seq<Item>) {
    if delimited then items != []
    else !(|Serialized(items)| > 2 && Serialized(items)[..2] == DELIMITER)
  }

  lemma ExtractUnit(delimited: bool, items: seq<Item>)
    requires AllValid(items) && Unambiguous(delimited, items)
    ensures Extract(Unit(delimited, items)) == Obus(Bares(items))
  {
    hide Serialized, LebValue, ReadLeb;
    var data := Unit(delimited, items);
    if delimited {
      SerializedNonempty(items);
      assert data[..2] == DELIMITER;
      assert data[2..] == Serialized(items);
    } else {
      assert data == Serialized(items);
      assert data[0..] == data;
    }
    ExtractSerialized(data, StartIndex(data), items, []);
    assert [] + Bares(items) == Bares(items);
  }

  lemma SerializedNonempty(items: seq<Item>)
    requires items != []
    ensures Serialized(items) != []
  {
  }

  function CanonicalAll(items: seq<Item>): Bytes {
    if items == [] then [] else items[0].obu.Canonical() + CanonicalAll(items[1..])
  }

  lemma {:induction false} EmitBares(items: seq<Item>)
    requires AllValid(items)
    ensures EmitAll(TemporalUnit, Bares(items)) == CanonicalAll(items)
  {
    hide WithSize, Obu.Bare, Obu.Canonical, LebValue;
    if items != [] {
      var item := items[0];
      assert Bares(items) == [item.obu.Bare()] + Bares(items[1..]);
      EmitCons(TemporalUnit, item.obu.Bare(), Bares(items[1..]));
      assert item.Valid();
      BareIsHandedOn(item.obu);
      EmitBares(items[1..]);
    }
  }

  /** Every packet of the unit's payloads is in the buffer, in order. */
  ghost predicate CarriesAll(packets: seq<Bytes>, payloads: seq<Bytes>) {
    && |packets| == |payloads|
    && forall i :: 0 <= i < |packets| ==> Readable(packets[i]) && Payload(packets[i]) == payloads[i]
  }

  /**
    Round trip of a temporal unit: the delimiter is dropped and every other unit comes back, in
    order, its size spelled in the shortest way.
   */
  lemma TemporalUnitRoundTrip(delimited: bool, items: seq<Item>, max: nat, packets: seq<Bytes>)
    requires items != [] && AllValid(items) && Unambiguous(delimited, items)
    requires UnitsFine(Bares(items), max) && HeadersFollowed(Bares(items)) && max >= 2
    requires CarriesAll(packets, Packetized(Bares(items), None, max, []).payloads)
    ensures Extract(Unit(delimited, items)) == Obus(Bares(items))
    ensures Reassembled(TemporalUnit, packets) == Frame(CanonicalAll(items))
  {
    hide Extract, Packetized, Emit, Payload, Serialized, Obu.Bare, IsSequenceHeader;
    ExtractUnit(delimited, items);
    var bares := Bares(items);
    assert Run(TemporalUnit, State([], []), []) == State([], []);
    RunUnits(TemporalUnit, [], bares, None, max, State([], []), []);
    CarriedIffFollowed(bares);
    EmitBares(items);
    assert PayloadsOf(packets) == Packetized(bares, None, max, []).payloads;
    assert [] + CanonicalAll(items) == CanonicalAll(items);
    CanonicalNonempty(items);
  }

  lemma CanonicalNonempty(items: seq<Item>)
    requires items != []
    ensures CanonicalAll(items) != []
  {
  }
}
