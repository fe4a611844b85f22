/**
  AV1 from any sender: payloads after section 4.4 of the RTP payload format for AV1, with any
  number of elements, any way of spelling their lengths and any cutting of units into elements,
  as src/av1rtpdepacketizer.cpp takes them.
 */
module Av1Senders {
  import opened Bits
  import opened RtpPacket
  import opened SequenceCheck
  import opened Av1Obu
  import opened Av1Packets
  import opened Av1RoundTrip

  // ---------------------------------------------------------------- one payload

  /** An element and the spelling of its length. */
  datatype Element = Element(data: Bytes, length: Bytes) {
    predicate Valid() {
      IsLeb(length) && LebValue(length) == |data|
    }
  }

  ghost predicate AllSpelled(es: seq<Element>) {
    forall i :: 0 <= i < |es| ==> es[i].Valid()
  }

  function Datas(es: seq<Element>): (r: seq<Bytes>)
    ensures |r| == |es|
  {
    seq(|es|, i requires 0 <= i < |es| => es[i].data)
  }

  /** Elements that all have their length in front. */
  function Counted(es: seq<Element>): Bytes {
    if es == [] then [] else es[0].length + es[0].data + Counted(es[1..])
  }

  /**
    A payload: whether its first element continues one, whether its last is continued, the number
    of elements or 0, the other bits of the aggregation header, and the elements.
   */
  datatype Load = Load(z: bool, y: bool, w: nat, flags: nat, es: seq<Element>) {
    ghost predicate Valid() {
      && w < 4 && flags < 16 && es != [] && AllSpelled(es)
      && (w != 0 ==> |es| == w)
      && (w == 1 ==> es[0].data != [])
    }

    /** With W the last element's length is left out. */
    function Body(): Bytes
      requires es != []
    {
      if w == 0 then Counted(es) else Counted(es[..|es| - 1]) + es[|es| - 1].data
    }

    function Wire(): Bytes
      requires Valid()
    {
      [(if z then 128 else 0) + (if y then 64 else 0) + w * 16 + flags] + Body()
    }
  }

  /** `parseLeb128` reads any LEB128 number of at most four bytes. */
  lemma {:induction false} LengthReads(p: Bytes, offset: nat, k: nat, value: nat, scale: nat, b: Bytes)
    requires b != [] && offset + |b| <= |p| && p[offset..offset + |b|] == b && k + |b| <= 4
    requires b[|b| - 1] < 128 && forall i :: 0 <= i < |b| - 1 ==> b[i] >= 128
    ensures ReadLength4(p, offset, k, value, scale) == Length(value + scale * LebValue(b), offset + |b|)
    decreases |b|
  {
    assert p[offset] == p[offset..offset + |b|][0];
    if |b| == 1 {
      assert b[1..] == [];
      assert LebValue(b) == b[0];
    } else {
      assert p[offset + 1..offset + |b|] == p[offset..offset + |b|][1..] == b[1..];
      LengthReads(p, offset + 1, k + 1, value + scale * (b[0] % 128), 128 * scale, b[1..]);
      Scaled(scale, b[0] % 128, LebValue(b[1..]));
    }
  }

  /** The element at `offset`: its length, its data and what is behind. */
  lemma ElementAt(p: Bytes, offset: nat, e: Element, rest: Bytes)
    requires e.Valid() && offset <= |p| && p[offset..] == e.length + e.data + rest
    ensures var at := offset + |e.length|;
            && ReadLength4(p, offset, 0, 0, 1) == Length(|e.data|, at)
            && at + |e.data| <= |p| && p[at..at + |e.data|] == e.data && p[at + |e.data|..] == rest
  {
    hide ReadLength4, LebValue;
    var tail, n := p[offset..], |e.length|;
    assert p[offset..offset + n] == tail[..n] == e.length;
    assert p[offset + n..offset + n + |e.data|] == tail[n..n + |e.data|] == e.data;
    assert p[offset + n + |e.data|..] == tail[n + |e.data|..] == rest;
    LengthReads(p, offset, 0, 0, 1, e.length);
  }

  lemma DatasFront(es: seq<Element>, acc: seq<Bytes>)
    requires es != []
    ensures acc + Datas(es) == (acc + [es[0].data]) + Datas(es[1..])
  {
  }

  /** A length that does not end, within four bytes or at all. */
  predicate Endless(tail: Bytes) {
    forall i :: 0 <= i < |tail| && i < 4 ==> tail[i] >= 128
  }

  /** A length of `n` bytes that runs over the end. */
  predicate Overlong(tail: Bytes, n: nat) {
    n <= |tail| && IsLeb(tail[..n]) && n + LebValue(tail[..n]) > |tail|
  }

  /** What cannot be read as an element; nothing at all is such a case. */
  ghost predicate Unreadable(tail: Bytes) {
    Endless(tail) || exists n: nat :: Overlong(tail, n)
  }

  lemma {:induction false} EndlessIsBad(p: Bytes, offset: nat, k: nat, value: nat, scale: nat)
    requires offset <= |p| && forall i :: offset <= i < |p| && i + k < offset + 4 ==> p[i] >= 128
    ensures ReadLength4(p, offset, k, value, scale).BadLength?
    decreases 4 - k
  {
    if k < 4 && offset < |p| {
      EndlessIsBad(p, offset + 1, k + 1, value + scale * (p[offset] % 128), 128 * scale);
    }
  }

  lemma UnreadableStops(p: Bytes, offset: nat, tail: Bytes)
    requires offset <= |p| && p[offset..] == tail && Unreadable(tail)
    ensures var l := ReadLength4(p, offset, 0, 0, 1); l.BadLength? || l.offset + l.value > |p|
  {
    hide ReadLength4, LebValue;
    if Endless(tail) {
      assert forall i :: offset <= i < |p| ==> p[i] == tail[i - offset];
      EndlessIsBad(p, offset, 0, 0, 1);
    } else {
      var n: nat :| Overlong(tail, n);
      assert p[offset..offset + n] == tail[..n];
      LengthReads(p, offset, 0, 0, 1, tail[..n]);
    }
  }

  /** Without W: every element in front of the first that cannot be read. */
  lemma {:induction false} CountedReads(p: Bytes, offset: nat, es: seq<Element>, tail: Bytes, acc: seq<Bytes>)
    requires AllSpelled(es) && offset <= |p| && p[offset..] == Counted(es) + tail
    requires Unreadable(tail)
    ensures CountedElements(p, offset, acc) == acc + Datas(es)
    decreases |es|
  {
    hide ReadLength4, IsLeb, LebValue, Unreadable;
    if es == [] {
      assert p[offset..] == tail && acc + Datas(es) == acc;
      UnreadableStops(p, offset, tail);
    } else {
      var e, rest := es[0], Counted(es[1..]) + tail;
      assert e.Valid();
      assert Counted(es) + tail == e.length + e.data + rest;
      ElementAt(p, offset, e, rest);
      LengthNonempty(e.length);
      CountedReads(p, offset + |e.length| + |e.data|, es[1..], tail, acc + [e.data]);
      DatasFront(es, acc);
    }
  }

  lemma LengthNonempty(b: Bytes)
    requires IsLeb(b)
    ensures b != []
  {
  }

  /** With W: `left` elements, the last of which takes the rest. */
  lemma {:induction false} RestReads(p: Bytes, offset: nat, es: seq<Element>, last: Bytes, acc: seq<Bytes>)
    requires AllSpelled(es) && offset <= |p| && p[offset..] == Counted(es) + last
    ensures RestElements(p, offset, |es| + 1, acc) == acc + Datas(es) + [last]
    decreases |es|
  {
    hide ReadLength4, IsLeb, LebValue, Unreadable;
    if es == [] {
      assert p[offset..] == last && acc + Datas(es) == acc;
    } else {
      var e, rest := es[0], Counted(es[1..]) + last;
      assert e.Valid();
      assert Counted(es) + last == e.length + e.data + rest;
      ElementAt(p, offset, e, rest);
      RestReads(p, offset + |e.length| + |e.data|, es[1..], last, acc + [e.data]);
      DatasFront(es, acc);
    }
  }

  /** With W and fewer elements than announced: those in front of the first that cannot be read. */
  lemma {:induction false} RestBreaksOff(p: Bytes, offset: nat, left: nat, es: seq<Element>, tail: Bytes, acc: seq<Bytes>)
    requires AllSpelled(es) && offset <= |p| && p[offset..] == Counted(es) + tail && |es| + 1 < left
    requires Unreadable(tail)
    ensures RestElements(p, offset, left, acc) == acc + Datas(es)
    decreases |es|
  {
    hide ReadLength4, IsLeb, LebValue, Unreadable;
    if es == [] {
      assert p[offset..] == tail && acc + Datas(es) == acc;
      UnreadableStops(p, offset, tail);
    } else {
      var e, rest := es[0], Counted(es[1..]) + tail;
      assert e.Valid();
      assert Counted(es) + tail == e.length + e.data + rest;
      ElementAt(p, offset, e, rest);
      RestBreaksOff(p, offset + |e.length| + |e.data|, left - 1, es[1..], tail, acc + [e.data]);
      DatasFront(es, acc);
    }
  }

  /** The aggregation header, bit by bit. */
  lemma HeaderBits(l: Load)
    requires l.Valid()
    ensures var p := l.Wire();
            Z(p) == l.z && Y(p) == l.y && W(p) == l.w && |p| == 1 + |l.Body()| && p[1..] == l.Body()
  {
    hide Load.Body;
    var p := l.Wire();
    assert p[0] == (if l.z then 128 else 0) + (if l.y then 64 else 0) + l.w * 16 + l.flags;
  }

  /** Every payload is read as exactly its elements. */
  lemma LoadReads(l: Load)
    requires l.Valid()
    ensures Elements(l.Wire()) == Datas(l.es) && |l.Wire()| > 1
    ensures Z(l.Wire()) == l.z && Y(l.Wire()) == l.y
  {
    hide CountedElements, RestElements, Load.Wire, IsLeb, LebValue;
    HeaderBits(l);
    var p, es := l.Wire(), l.es;
    assert es[0].Valid();
    LengthNonempty(es[0].length);
    if l.w == 0 {
      assert Counted(es) + [] == Counted(es);
      CountedReads(p, 1, es, [], []);
      assert [] + Datas(es) == Datas(es);
    } else {
      var n := |es| - 1;
      assert AllSpelled(es[..n]);
      RestReads(p, 1, es[..n], es[n].data, []);
      assert [] + Datas(es[..n]) + [es[n].data] == Datas(es);
      assert n > 0 ==> es[..n][0] == es[0];
    }
  }

  /** A payload of an aggregation header alone is passed over. */
  lemma HeaderAlone(mode: Packetization, st: State, p: Bytes)
    requires |p| <= 1
    ensures TakePayload(mode, st, p) == st
  {
  }

  // ---------------------------------------------------------------- units from elements

  /** An element of the stream and whether its unit goes on in the next one. */
  datatype Part = Part(data: Bytes, goesOn: bool)

  /** The parts of a unit, in order: all but the last go on. */
  function Marked(pieces: seq<Bytes>): (r: seq<Part>)
    ensures |r| == |pieces|
  {
    seq(|pieces|, i requires 0 <= i < |pieces| => Part(pieces[i], i < |pieces| - 1))
  }

  /** The parts of several units. */
  function AllMarked(cut: seq<seq<Bytes>>): seq<Part> {
    if cut == [] then [] else AllMarked(cut[..|cut| - 1]) + Marked(cut[|cut| - 1])
  }

  function Glued(pieces: seq<Bytes>): Bytes {
    if pieces == [] then [] else Glued(pieces[..|pieces| - 1]) + pieces[|pieces| - 1]
  }

  /** The units that have been cut. */
  function Units(cut: seq<seq<Bytes>>): (r: seq<Bytes>)
    ensures |r| == |cut|
  {
    seq(|cut|, i requires 0 <= i < |cut| => Glued(cut[i]))
  }

  /** The elements of a payload as parts: only the last can go on, and Y says whether it does. */
  function Parts(l: Load): (r: seq<Part>)
    ensures |r| == |l.es|
  {
    seq(|l.es|, k requires 0 <= k < |l.es| => Part(l.es[k].data, k == |l.es| - 1 && l.y))
  }

  function AllParts(ls: seq<Load>): seq<Part> {
    if ls == [] then [] else AllParts(ls[..|ls| - 1]) + Parts(ls[|ls| - 1])
  }

  /** Complete units and what there is of the next one. */
  datatype Grouping = Grouping(units: seq<Bytes>, open: Bytes)

  function Add(g: Grouping, p: Part): Grouping {
    if p.goesOn then Grouping(g.units, g.open + p.data) else Grouping(g.units + [g.open + p.data], [])
  }

  function Group(ps: seq<Part>): Grouping {
    if ps == [] then Grouping([], []) else Add(Group(ps[..|ps| - 1]), ps[|ps| - 1])
  }

  lemma GroupSnoc(ps: seq<Part>, p: Part)
    ensures Group(ps + [p]) == Add(Group(ps), p)
  {
    assert (ps + [p])[..|ps|] == ps;
  }

  /** Grouping undoes cutting: the first `k` parts of one more unit. */
  lemma {:induction false} GroupUnit(before: seq<Part>, units: seq<Bytes>, pieces: seq<Bytes>, k: nat)
    requires Group(before) == Grouping(units, []) && k <= |pieces| && pieces != []
    ensures Group(before + Marked(pieces)[..k]) ==
            if k < |pieces| then Grouping(units, Glued(pieces[..k])) else Grouping(units + [Glued(pieces)], [])
    decreases k
  {
    if k == 0 {
      assert before + Marked(pieces)[..0] == before;
    } else {
      GroupUnit(before, units, pieces, k - 1);
      var ps, p := before + Marked(pieces)[..k - 1], Marked(pieces)[k - 1];
      assert before + Marked(pieces)[..k] == ps + [p];
      GroupSnoc(ps, p);
      assert pieces[..k][..k - 1] == pieces[..k - 1];
      assert k == |pieces| ==> pieces[..k] == pieces;
    }
  }

  ghost predicate AllCut(cut: seq<seq<Bytes>>) {
    forall i :: 0 <= i < |cut| ==> cut[i] != []
  }

  lemma {:induction false} GroupUndoesCut(cut: seq<seq<Bytes>>)
    requires AllCut(cut)
    ensures Group(AllMarked(cut)) == Grouping(Units(cut), [])
    decreases |cut|
  {
    if cut != [] {
      var n := |cut| - 1;
      GroupUndoesCut(cut[..n]);
      GroupUnit(AllMarked(cut[..n]), Units(cut[..n]), cut[n], |cut[n]|);
      assert Marked(cut[n])[..|cut[n]|] == Marked(cut[n]);
      assert Units(cut[..n]) + [Glued(cut[n])] == Units(cut);
    }
  }

  // ---------------------------------------------------------------- the receiver groups

  /** The state that holds the units as they are handed on. */
  function Handed(mode: Packetization, g: Grouping): State {
    State(EmitAll(mode, g.units), g.open)
  }

  lemma {:induction false} EmitSnoc(mode: Packetization, units: seq<Bytes>, u: Bytes)
    ensures EmitAll(mode, units + [u]) == EmitAll(mode, units) + Emit(mode, u)
  {
    hide Emit;
    if units == [] {
      assert units + [u] == [u] && [u][1..] == [];
      assert EmitAll(mode, [u]) == Emit(mode, u) + [];
    } else {
      assert (units + [u])[1..] == units[1..] + [u];
      EmitSnoc(mode, units[1..], u);
      assert Emit(mode, units[0]) + (EmitAll(mode, units[1..]) + Emit(mode, u)) ==
             (Emit(mode, units[0]) + EmitAll(mode, units[1..])) + Emit(mode, u);
    }
  }

  /** One element; only a payload's first can continue a unit. */
  lemma TakeGroups(mode: Packetization, g: Grouping, data: Bytes, i: nat, n: nat, z: bool, y: bool)
    requires i < n && (g.open != [] ==> i == 0 && z)
    ensures TakeElement(mode, Handed(mode, g), data, i, n, z, y) == Handed(mode, Add(g, Part(data, i == n - 1 && y)))
  {
    hide Emit, EmitAll;
    EmitSnoc(mode, g.units, g.open + data);
    assert g.open == [] ==> g.open + data == data;
  }

  /** The first `k` elements of a payload. */
  lemma {:induction false} TakeLoad(mode: Packetization, before: seq<Part>, l: Load, k: nat)
    requires k <= |l.es| && (Group(before).open != [] ==> l.z)
    ensures TakeElements(mode, Handed(mode, Group(before)), Datas(l.es), l.z, l.y, k) ==
            Handed(mode, Group(before + Parts(l)[..k]))
    ensures 0 < k < |l.es| ==> Group(before + Parts(l)[..k]).open == []
    decreases k
  {
    hide TakeElement, Handed;
    if k == 0 {
      assert before + Parts(l)[..0] == before;
    } else {
      TakeLoad(mode, before, l, k - 1);
      var ps, p := before + Parts(l)[..k - 1], Parts(l)[k - 1];
      assert before + Parts(l)[..k] == ps + [p];
      assert k == 1 ==> ps == before;
      GroupSnoc(ps, p);
      TakeGroups(mode, Group(ps), l.es[k - 1].data, k - 1, |l.es|, l.z, l.y);
    }
  }

  /** Every payload is well formed, and continues an element exactly when the one before is continued. */
  ghost predicate Linked(ls: seq<Load>) {
    && (forall i :: 0 <= i < |ls| ==> ls[i].Valid())
    && (forall i :: 0 <= i < |ls| ==> ls[i].z == (i > 0 && ls[i - 1].y))
  }

  function Wires(ls: seq<Load>): (r: seq<Bytes>)
    requires forall i :: 0 <= i < |ls| ==> ls[i].Valid()
    ensures |r| == |ls|
  {
    seq(|ls|, i requires 0 <= i < |ls| => assert ls[i].Valid(); ls[i].Wire())
  }

  lemma {:induction false} OpenAfter(ls: seq<Load>)
    requires Linked(ls)
    ensures Group(AllParts(ls)).open != [] ==> ls != [] && ls[|ls| - 1].y
  {
    if ls != [] {
      var l := ls[|ls| - 1];
      assert l.Valid();
      var ps, p := AllParts(ls[..|ls| - 1]) + Parts(l)[..|l.es| - 1], Parts(l)[|l.es| - 1];
      assert AllParts(ls) == ps + [p];
      GroupSnoc(ps, p);
    }
  }

  /** The receiver's state after any number of payloads is the grouping of their elements. */
  lemma {:induction false} RunGroups(mode: Packetization, ls: seq<Load>)
    requires Linked(ls)
    ensures Run(mode, State([], []), Wires(ls)) == Handed(mode, Group(AllParts(ls)))
    decreases |ls|
  {
    hide TakeElements, Load.Valid, Load.Wire, Elements, Z, Y, Parts, Emit;
    if ls != [] {
      var n := |ls| - 1;
      var l, before := ls[n], ls[..n];
      assert Linked(before) by { assert forall i :: 0 <= i < n ==> before[i] == ls[i]; }
      RunGroups(mode, before);
      OpenAfter(before);
      assert Wires(ls)[..n] == Wires(before) && Wires(ls)[n] == l.Wire();
      LoadReads(l);
      TakeLoad(mode, AllParts(before), l, |l.es|);
      assert Parts(l)[..|l.es|] == Parts(l);
    }
  }

  /** When units are handed over one by one their bytes are left as they are. */
  lemma {:induction false} PerObuIsPlain(units: seq<Bytes>)
    ensures EmitAll(PerObu, units) == Glued(units)
    decreases |units|
  {
    if units != [] {
      var n := |units| - 1;
      PerObuIsPlain(units[..n]);
      EmitSnoc(PerObu, units[..n], units[n]);
      assert units == units[..n] + [units[n]];
    }
  }

  /**
    For every list of units, every cutting of them into elements and every packing of the elements
    into payloads that marks what goes on: each unit is handed on once, in order, and nothing is
    left over.
   */
  lemma AnySenderArrives(mode: Packetization, cut: seq<seq<Bytes>>, ls: seq<Load>, packets: seq<Bytes>)
    requires AllCut(cut) && Linked(ls) && AllParts(ls) == AllMarked(cut)
    requires CarriesAll(packets, Wires(ls))
    ensures Run(mode, State([], []), PayloadsOf(packets)) == State(EmitAll(mode, Units(cut)), [])
    ensures var frame := EmitAll(mode, Units(cut));
            && Reassembled(mode, packets) == (if frame == [] then NoFrame else Frame(frame))
            && (mode == PerObu ==> frame == Glued(Units(cut)))
  {
    PerObuIsPlain(Units(cut));
    hide Run, Payload, Readable, Group, AllMarked, AllParts, Units, EmitAll, Load.Valid, Glued;
    WiresArrive(ls, packets);
    RunGroups(mode, ls);
    GroupUndoesCut(cut);
  }

  lemma WiresArrive(ls: seq<Load>, packets: seq<Bytes>)
    requires Linked(ls) && CarriesAll(packets, Wires(ls))
    ensures AllReadable(packets) && PayloadsOf(packets) == Wires(ls)
  {
    hide Load.Valid, Load.Wire, Payload, Readable;
  }

  /** The units as a sender may send them: without their size, or with it in any spelling. */
  ghost predicate Spells(units: seq<Bytes>, items: seq<Item>) {
    && |units| == |items| && AllValid(items)
    && forall i :: 0 <= i < |units| ==>
         items[i].Valid() && (units[i] == items[i].obu.Bare() || units[i] == items[i].obu.Sized(items[i].size))
  }

  lemma {:induction false} EmitSpelled(units: seq<Bytes>, items: seq<Item>)
    requires Spells(units, items)
    ensures EmitAll(TemporalUnit, units) == CanonicalAll(items)
  {
    hide WithSize, Obu.Bare, Obu.Sized, Obu.Canonical, LebValue, IsLeb;
    if units != [] {
      BareIsHandedOn(items[0].obu);
      SizedIsHandedOn(items[0].obu, items[0].size, []);
      assert items[0].obu.Sized(items[0].size) + [] == items[0].obu.Sized(items[0].size);
      EmitSpelled(units[1..], items[1..]);
    }
  }

  /** From any sender a temporal unit arrives as its units, each with its size in the shortest spelling. */
  lemma AnyTemporalUnitArrives(items: seq<Item>, cut: seq<seq<Bytes>>, ls: seq<Load>, packets: seq<Bytes>)
    requires items != [] && AllCut(cut) && Spells(Units(cut), items)
    requires Linked(ls) && AllParts(ls) == AllMarked(cut) && CarriesAll(packets, Wires(ls))
    ensures Reassembled(TemporalUnit, packets) == Frame(CanonicalAll(items))
  {
    hide Run, Linked, Payload, Readable, AllMarked, AllParts, Units, EmitAll, Spells, CanonicalAll, Reassembled;
    AnySenderArrives(TemporalUnit, cut, ls, packets);
    EmitSpelled(Units(cut), items);
    CanonicalNonempty(items);
  }
}
