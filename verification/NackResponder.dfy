/**
  The NACK responder (src/rtcpnackresponder.cpp): a compound RTCP message is scanned for
  generic NACKs, and the requested packets that the cache holds are sent again.
 */
module NackResponder {
  import opened Bits
  import opened Options
  import opened RtpPacket
  import opened PacketCache
  import opened Nack
  import opened Rtx

  // ---------------------------------------------------------------- on the wire

  function PartBytes(p: Part): (r: Bytes)
    ensures |r| == 4
  {
    FromU16(p.pid) + FromU16(p.blp)
  }

  function PartsBytes(parts: seq<Part>): (r: Bytes)
    ensures |r| == 4 * |parts|
  {
    if parts == [] then [] else PartsBytes(parts[..|parts| - 1]) + PartBytes(parts[|parts| - 1])
  }

  /** `preparePacket` and the parts. */
  function NackBytes(ssrc: U32, parts: seq<Part>): (r: Bytes)
    requires |parts| <= 65533
    ensures |r| == 12 + 4 * |parts|
  {
    [129, 205] + FromU16(2 + |parts|) + FromU32(ssrc) + FromU32(ssrc) + PartsBytes(parts)
  }

  /**
    A packet of a compound message: a generic NACK, or one with any other pair of packet type and
    count (or format) field, or too short for the two sources of a NACK.
   */
  datatype Rtcp = Feedback(ssrc: U32, parts: seq<Part>) | Other(padding: bool, count: nat, packetType: Byte, body: Bytes)

  predicate IsNack(m: Bytes)
    requires |m| >= 4
  {
    m[1] == 205 && m[0] % 32 == 1
  }

  ghost predicate WellFormed(r: Rtcp) {
    match r
    case Feedback(_, parts) => |parts| <= 65533
    case Other(_, count, packetType, body) =>
      && count < 32 && |body| % 4 == 0 && |body| / 4 < 65536
      && ((packetType, count) != (205, 1) || |body| < 8)
  }

  function Encoded(r: Rtcp): (b: Bytes)
    requires WellFormed(r)
  {
    match r
    case Feedback(ssrc, parts) => NackBytes(ssrc, parts)
    case Other(padding, count, packetType, body) =>
      [(if padding then 160 else 128) + count, packetType] + FromU16(|body| / 4) + body
  }

  function Compound(rs: seq<Rtcp>): Bytes
    requires forall i :: 0 <= i < |rs| ==> WellFormed(rs[i])
  {
    if rs == [] then [] else Encoded(rs[0]) + Compound(rs[1..])
  }

  /** What the message asks for. */
  function Wanted(rs: seq<Rtcp>): seq<U16> {
    if rs == [] then []
    else (if rs[0].Feedback? then ExpandAll(rs[0].parts) else []) + Wanted(rs[1..])
  }

  // ---------------------------------------------------------------- scanning

  /** The parts of the NACK that starts at `p`, `count` of them. */
  function PartsAt(m: Bytes, p: nat, count: nat): seq<Part>
    requires p + 12 + 4 * count <= |m|
  {
    if count == 0 then []
    else
      var q := p + 12 + 4 * (count - 1);
      PartsAt(m, p, count - 1) + [Part(U16At(m, q), U16At(m, q + 2))]
  }

  /** `getSeqNoCount` */
  function SeqNoCount(length: U16): nat {
    if length < 2 then 0 else length - 2
  }

  /** The numbers requested by one packet of the compound. */
  function RequestedAt(m: Bytes, p: nat): seq<U16>
    requires p + 16 <= |m| && p + 4 * (1 + U16At(m, p + 2)) <= |m|
  {
    if IsNack(m[p..]) then ExpandAll(PartsAt(m, p, SeqNoCount(U16At(m, p + 2)))) else []
  }

  function Requested(m: Bytes, p: nat): seq<U16>
    decreases |m| - p
  {
    if p + 16 > |m| then []
    else
      var next := p + 4 * (1 + U16At(m, p + 2));
      if next > |m| then [] else RequestedAt(m, p) + Requested(m, next)
  }

  /** The packets that the cache has among the requested ones. */
  function Resent(c: Contents, wanted: seq<U16>): seq<Bytes>
    requires Coherent(c)
  {
    if wanted == [] then []
    else
      var n := |wanted| - 1;
      Resent(c, wanted[..n]) + (if Lookup(c, wanted[n]).Some? then [Lookup(c, wanted[n]).value] else [])
  }

  method FieldNumbers(m: Bytes, p: nat, count: nat) returns (missing: seq<U16>)
    requires p + 12 + 4 * count <= |m|
    ensures missing == ExpandAll(PartsAt(m, p, count))
  {
    missing := [];
    for i := 0 to count
      invariant missing == ExpandAll(PartsAt(m, p, i))
    {
      var q := p + 12 + 4 * i;
      var field := Part(U16At(m, q), U16At(m, q + 2));
      var more := GetSequenceNumbers(field);
      ExpandInit(PartsAt(m, p, i), field);
      missing := missing + more;
    }
  }

  lemma Scan(m: Bytes, p: nat)
    ensures p + 16 > |m| ==> Requested(m, p) == []
    ensures p + 16 <= |m| ==>
              var next := p + 4 * (1 + U16At(m, p + 2));
              && (next > |m| ==> Requested(m, p) == [])
              && (next <= |m| ==> Requested(m, p) == RequestedAt(m, p) + Requested(m, next))
  {
  }

  // ---------------------------------------------------------------- answering

  /** What the handler gets: control messages, and others that it leaves alone. */
  datatype Message = Control(data: Bytes) | Media(data: Bytes)

  /** The numbers that a list of messages asks for. */
  function AllRequested(ms: seq<Message>): seq<U16> {
    if ms == [] then []
    else
      var n := |ms| - 1;
      AllRequested(ms[..n]) + (if ms[n].Control? then Requested(ms[n].data, 0) else [])
  }

  /** The responder's RTX settings. */
  datatype Settings = Settings(enabled: bool, ssrc: Option<U32>, types: PayloadTypes)

  /** Cached packets that would be wrapped contain the header they announce. */
  ghost predicate Wrappable(rtx: Settings, c: Contents) {
    rtx.enabled ==> forall e :: e in c.list && IsWrapped(rtx.ssrc, rtx.types, e.packet) ==> Whole(e.packet)
  }

  ghost predicate AllWrappable(rtx: Settings, ps: seq<Bytes>) {
    rtx.enabled ==> forall p :: p in ps && IsWrapped(rtx.ssrc, rtx.types, p) ==> Whole(p)
  }

  /** What goes out for a list of packets, and the next RTX number: the packets themselves, or wrapped. */
  function Answers(rtx: Settings, first: U16, ps: seq<Bytes>): (seq<Bytes>, U16)
    requires AllWrappable(rtx, ps)
  {
    if !rtx.enabled then (ps, first)
    else if ps == [] then ([], first)
    else
      var p := ps[|ps| - 1];
      assert p in ps;
      var (before, s) := Answers(rtx, first, ps[..|ps| - 1]);
      if IsWrapped(rtx.ssrc, rtx.types, p)
      then (before + [Wrapped(p, rtx.ssrc.value, rtx.types[PayloadType(p)], s)], (s + 1) % 65536)
      else (before, s)
  }

  function SettingsOf(sender: Sender, enabled: bool): Settings
    reads sender
  {
    Settings(enabled, sender.rtxSsrc, sender.rtxTypes)
  }

  lemma StorageIsCoherent(storage: Storage)
    requires storage.Valid()
    ensures Coherent(storage.View())
  {
  }

  lemma {:induction false} ResentAreCached(rtx: Settings, c: Contents, wanted: seq<U16>)
    requires Coherent(c) && Wrappable(rtx, c)
    ensures AllWrappable(rtx, Resent(c, wanted))
    decreases |wanted|
  {
    hide IsWrapped, Whole;
    if wanted != [] {
      var n := |wanted| - 1;
      ResentAreCached(rtx, c, wanted[..n]);
      if Lookup(c, wanted[n]).Some? {
        assert c.list[c.index[wanted[n]]] in c.list;
      }
    }
  }

  lemma ResentSnoc(c: Contents, wanted: seq<U16>, n: U16)
    requires Coherent(c)
    ensures Resent(c, wanted + [n]) ==
            Resent(c, wanted) + (if Lookup(c, n).Some? then [Lookup(c, n).value] else [])
  {
    assert (wanted + [n])[..|wanted|] == wanted;
  }

  lemma AnswersSnoc(rtx: Settings, first: U16, ps: seq<Bytes>, p: Bytes)
    requires AllWrappable(rtx, ps + [p])
    ensures AllWrappable(rtx, ps)
    ensures rtx.enabled && IsWrapped(rtx.ssrc, rtx.types, p) ==>
              var (before, s) := Answers(rtx, first, ps);
              && Whole(p)
              && Answers(rtx, first, ps + [p]) ==
                 (before + [Wrapped(p, rtx.ssrc.value, rtx.types[PayloadType(p)], s)], (s + 1) % 65536)
    ensures rtx.enabled && !IsWrapped(rtx.ssrc, rtx.types, p) ==>
              Answers(rtx, first, ps + [p]) == Answers(rtx, first, ps)
    ensures !rtx.enabled ==> Answers(rtx, first, ps) == (ps, first)
  {
    hide Whole, IsWrapped, Wrapped;
    assert (ps + [p])[..|ps|] == ps && p in ps + [p];
    assert forall q :: q in ps ==> q in ps + [p];
  }

  /** One packet out: as it is, or wrapped. */
  method SendOne(sender: Sender, enabled: bool, p: Bytes, sent: seq<Bytes>, ghost ps: seq<Bytes>, ghost first: U16)
    returns (sent': seq<Bytes>)
    requires AllWrappable(SettingsOf(sender, enabled), ps + [p]) && AllWrappable(SettingsOf(sender, enabled), ps)
    requires (sent, sender.rtxSeqNumber) == Answers(SettingsOf(sender, enabled), first, ps)
    modifies sender`rtxSeqNumber
    ensures (sent', sender.rtxSeqNumber) == Answers(SettingsOf(sender, enabled), first, ps + [p])
  {
    AnswersSnoc(SettingsOf(sender, enabled), first, ps, p);
    AnswersPlain(SettingsOf(sender, enabled), first, ps + [p]);
    hide Answers, AllWrappable, IsWrapped, Whole, Wrapped;
    sent' := sent;
    if enabled {
      var wrapped := sender.WrapInRtx(p);
      if wrapped.Some? {
        sent' := sent' + [wrapped.value];
      }
    } else {
      sent' := sent' + [p];
    }
  }

  lemma AnswersPlain(rtx: Settings, first: U16, ps: seq<Bytes>)
    requires !rtx.enabled ==> AllWrappable(rtx, ps)
    ensures !rtx.enabled ==> Answers(rtx, first, ps) == (ps, first)
  {
  }

  /** What has gone out for the numbers `seen`. */
  ghost predicate Answered(rtx: Settings, c: Contents, first: U16, seen: seq<U16>, sent: seq<Bytes>, next: U16) {
    && Coherent(c) && AllWrappable(rtx, Resent(c, seen))
    && (sent, next) == Answers(rtx, first, Resent(c, seen))
  }

  /** One requested number: looked up and sent. */
  method Answer(storage: Storage, sender: Sender, enabled: bool, n: U16, sent: seq<Bytes>, ghost seen: seq<U16>, ghost first: U16)
    returns (sent': seq<Bytes>)
    requires storage.Valid() && Wrappable(SettingsOf(sender, enabled), storage.View())
    requires Answered(SettingsOf(sender, enabled), storage.View(), first, seen, sent, sender.rtxSeqNumber)
    modifies sender`rtxSeqNumber
    ensures Answered(SettingsOf(sender, enabled), storage.View(), first, seen + [n], sent', sender.rtxSeqNumber)
  {
    hide Resent, Answers, Wrappable, AllWrappable, Coherent, Lookup, Storage.Valid, Storage.View;
    ghost var rtx, c := SettingsOf(sender, enabled), storage.View();
    StorageIsCoherent(storage);
    ResentAreCached(rtx, c, seen + [n]);
    ResentSnoc(c, seen, n);
    sent' := sent;
    var packet := storage.Get(n);
    if packet.Some? {
      sent' := SendOne(sender, enabled, packet.value, sent, Resent(c, seen), first);
    } else {
      assert Resent(c, seen) + [] == Resent(c, seen);
    }
  }

  method AnswerAll(storage: Storage, sender: Sender, enabled: bool, missing: seq<U16>, sent: seq<Bytes>, ghost seen: seq<U16>, ghost first: U16)
    returns (sent': seq<Bytes>)
    requires storage.Valid() && Wrappable(SettingsOf(sender, enabled), storage.View())
    requires Answered(SettingsOf(sender, enabled), storage.View(), first, seen, sent, sender.rtxSeqNumber)
    modifies sender`rtxSeqNumber
    ensures Answered(SettingsOf(sender, enabled), storage.View(), first, seen + missing, sent', sender.rtxSeqNumber)
  {
    hide Answered, Wrappable, Storage.Valid;
    sent' := sent;
    assert seen + missing[..0] == seen;
    for i := 0 to |missing|
      invariant Answered(SettingsOf(sender, enabled), storage.View(), first, seen + missing[..i], sent', sender.rtxSeqNumber)
    {
      sent' := Answer(storage, sender, enabled, missing[i], sent', seen + missing[..i], first);
      assert seen + missing[..i] + [missing[i]] == seen + missing[..i + 1];
    }
    assert missing[..|missing|] == missing;
  }

  /** The scan of one control message. */
  method AnswerMessage(storage: Storage, sender: Sender, enabled: bool, m: Bytes, sent: seq<Bytes>, ghost seen: seq<U16>, ghost first: U16)
    returns (sent': seq<Bytes>)
    requires storage.Valid() && Wrappable(SettingsOf(sender, enabled), storage.View())
    requires Answered(SettingsOf(sender, enabled), storage.View(), first, seen, sent, sender.rtxSeqNumber)
    modifies sender`rtxSeqNumber
    ensures Answered(SettingsOf(sender, enabled), storage.View(), first, seen + Requested(m, 0), sent', sender.rtxSeqNumber)
  {
    hide Requested, RequestedAt, Answered, Wrappable, Storage.Valid;
    sent' := sent;
    var p := 0;
    ghost var all := seen + Requested(m, 0);
    ghost var done := seen;
    while p + 16 <= |m|
      invariant done + Requested(m, p) == all
      invariant Answered(SettingsOf(sender, enabled), storage.View(), first, done, sent', sender.rtxSeqNumber)
      decreases |m| - p
    {
      Scan(m, p);
      var start: nat, length: nat := p, U16At(m, p + 2);
      p := p + 4 * (1 + length);
      if p > |m| {
        assert done + [] == done;
        return;
      }
      ghost var at := RequestedAt(m, start);
      assert done + (at + Requested(m, p)) == done + at + Requested(m, p);
      var missing := NumbersAt(m, start);
      sent' := AnswerAll(storage, sender, enabled, missing, sent', done, first);
      done := done + at;
    }
    Scan(m, p);
    assert done + [] == done;
  }

  /** The numbers of one packet of the compound; none unless it is a generic NACK. */
  method NumbersAt(m: Bytes, p: nat) returns (missing: seq<U16>)
    requires p + 16 <= |m| && p + 4 * (1 + U16At(m, p + 2)) <= |m|
    ensures missing == RequestedAt(m, p)
  {
    if m[p + 1] != 205 || m[p] % 32 != 1 {
      return [];
    }
    missing := FieldNumbers(m, p, SeqNoCount(U16At(m, p + 2)));
  }

  /** `incoming`: the answers to all control messages, plain or as RTX. */
  method Incoming(storage: Storage, sender: Sender, enabled: bool, ms: seq<Message>) returns (sent: seq<Bytes>)
    requires storage.Valid() && Wrappable(SettingsOf(sender, enabled), storage.View())
    modifies sender`rtxSeqNumber
    ensures Answered(SettingsOf(sender, enabled), storage.View(), old(sender.rtxSeqNumber), AllRequested(ms), sent, sender.rtxSeqNumber)
  {
    StorageIsCoherent(storage);
    NothingAnswered(SettingsOf(sender, enabled), storage.View(), sender.rtxSeqNumber);
    hide Requested, Answered, Wrappable, Coherent, Storage.Valid;
    sent := [];
    for i := 0 to |ms|
      invariant Answered(SettingsOf(sender, enabled), storage.View(), old(sender.rtxSeqNumber), AllRequested(ms[..i]), sent, sender.rtxSeqNumber)
    {
      assert ms[..i + 1][..i] == ms[..i];
      if ms[i].Control? {
        sent := AnswerMessage(storage, sender, enabled, ms[i].data, sent, AllRequested(ms[..i]), old(sender.rtxSeqNumber));
      } else {
        assert AllRequested(ms[..i]) + [] == AllRequested(ms[..i]);
      }
    }
    assert ms[..|ms|] == ms;
  }

  lemma NothingAnswered(rtx: Settings, c: Contents, s: U16)
    requires Coherent(c)
    ensures Answered(rtx, c, s, AllRequested([]), [], s)
  {
  }

  // ---------------------------------------------------------------- the scan inverts the encoding

  lemma PartRead(m: Bytes, q: nat, p: Part)
    requires q + 4 <= |m| && m[q..q + 4] == PartBytes(p)
    ensures U16At(m, q) == p.pid && U16At(m, q + 2) == p.blp
  {
    hide U16At, FromU16;
    assert m[q..q + 2] == m[q..q + 4][..2] == FromU16(p.pid);
    assert m[q + 2..q + 4] == m[q..q + 4][2..] == FromU16(p.blp);
    ReadU16(m, q, p.pid);
    ReadU16(m, q + 2, p.blp);
  }

  lemma Cut(m: Bytes, i: nat, j: nat, a: Bytes, b: Bytes)
    requires i + |a| == j && j + |b| <= |m| && m[i..j + |b|] == a + b
    ensures m[i..j] == a && m[j..j + |b|] == b
  {
    assert m[i..j] == m[i..j + |b|][..|a|];
    assert m[j..j + |b|] == m[i..j + |b|][|a|..];
  }

  lemma {:induction false} PartsRead(m: Bytes, p: nat, parts: seq<Part>)
    requires p + 12 + 4 * |parts| <= |m| && m[p + 12..p + 12 + 4 * |parts|] == PartsBytes(parts)
    ensures PartsAt(m, p, |parts|) == parts
    decreases |parts|
  {
    if parts != [] {
      hide U16At, PartBytes, FromU16;
      var n := |parts| - 1;
      var q := p + 12 + 4 * n;
      assert PartsBytes(parts) == PartsBytes(parts[..n]) + PartBytes(parts[n]);
      hide PartsBytes;
      Cut(m, p + 12, q, PartsBytes(parts[..n]), PartBytes(parts[n]));
      PartsRead(m, p, parts[..n]);
      PartRead(m, q, parts[n]);
      assert parts == parts[..n] + [parts[n]];
    }
  }

  /** The header of the packet at `p`. */
  lemma HeaderAt(m: Bytes, p: nat, e: Bytes)
    requires |e| >= 4 && p + |e| <= |m| && m[p..p + |e|] == e
    ensures U16At(m, p + 2) == U16At(e, 2) && (IsNack(m[p..]) <==> IsNack(e))
  {
    assert m[p..][0] == e[0] && m[p..][1] == e[1] && m[p + 2] == e[2] && m[p + 3] == e[3];
  }

  /** One well-formed packet at `p`: its length and, when it reaches 16 bytes of message, its numbers. */
  lemma PacketRead(m: Bytes, p: nat, r: Rtcp)
    requires WellFormed(r) && p + |Encoded(r)| <= |m| && m[p..p + |Encoded(r)|] == Encoded(r)
    ensures |Encoded(r)| >= 4 && 4 * (1 + U16At(m, p + 2)) == |Encoded(r)|
    ensures p + 16 <= |m| ==> RequestedAt(m, p) == if r.Feedback? then ExpandAll(r.parts) else []
  {
    hide ExpandAll, U16At, NackBytes, FromU16;
    var e := Encoded(r);
    if r.Other? {
      OtherFields(r);
      HeaderAt(m, p, e);
      NoParts();
    } else {
      NackFields(r.ssrc, r.parts);
      HeaderAt(m, p, e);
      assert IsNack(e);
      assert m[p + 12..p + |e|] == m[p..p + |e|][12..];
      PartsRead(m, p, r.parts);
    }
  }

  lemma NoParts()
    ensures ExpandAll([]) == []
  {
  }

  /** The header of a packet that is not a NACK, or of one without parts. */
  lemma OtherFields(r: Rtcp)
    requires WellFormed(r) && r.Other?
    ensures var e := Encoded(r); |e| >= 4 && 4 * (1 + U16At(e, 2)) == |e| && (!IsNack(e) || SeqNoCount(U16At(e, 2)) == 0)
  {
    hide FromU16, U16At;
    var e, n := Encoded(r), |r.body| / 4;
    assert e[2..4] == FromU16(n);
    ReadU16(e, 2, n);
    assert e[0] % 32 == r.count;
  }

  lemma NackFields(ssrc: U32, parts: seq<Part>)
    requires |parts| <= 65533
    ensures var e := NackBytes(ssrc, parts);
            e[0] == 129 && e[1] == 205 && U16At(e, 2) == 2 + |parts| && e[12..] == PartsBytes(parts)
  {
    hide PartsBytes, FromU16, FromU32, U16At;
    var size, sender, body := FromU16(2 + |parts|), FromU32(ssrc), PartsBytes(parts);
    FieldsOf([129, 205], size, sender, body);
    ReadU16(NackBytes(ssrc, parts), 2, 2 + |parts|);
  }

  lemma FieldsOf(front: Bytes, size: Bytes, sender: Bytes, body: Bytes)
    requires |front| == |size| == 2 && |sender| == 4
    ensures var e := front + size + sender + sender + body;
            e[0] == front[0] && e[1] == front[1] && e[2..4] == size && e[12..] == body
  {
  }

  /** A short tail holds no NACK with parts. */
  lemma {:induction false} ShortTail(rs: seq<Rtcp>)
    requires (forall i :: 0 <= i < |rs| ==> WellFormed(rs[i])) && |Compound(rs)| < 16
    ensures Wanted(rs) == []
  {
    if rs != [] {
      ShortTail(rs[1..]);
      assert rs[0].Feedback? ==> rs[0].parts == [];
    }
  }

  lemma BytesAssoc(a: Bytes, b: Bytes, c: Bytes)
    ensures a + (b + c) == a + b + c
    ensures (a + (b + c))[|a|..|a| + |b|] == b
  {
  }

  /** What may follow the packets: less than a header and a part, or a length that runs over the end. */
  predicate BreaksOff(tail: Bytes) {
    |tail| < 16 || 4 * (1 + U16At(tail, 2)) > |tail|
  }

  lemma {:induction false} CompoundRead(pre: Bytes, rs: seq<Rtcp>, tail: Bytes)
    requires (forall i :: 0 <= i < |rs| ==> WellFormed(rs[i])) && BreaksOff(tail)
    ensures Requested(pre + (Compound(rs) + tail), |pre|) == Wanted(rs)
    decreases |rs|
  {
    hide Requested, RequestedAt, Encoded, WellFormed, U16At, ExpandAll;
    var m := pre + (Compound(rs) + tail);
    Scan(m, |pre|);
    if |Compound(rs) + tail| < 16 {
      ShortTail(rs);
    } else if rs == [] {
      assert Compound(rs) + tail == tail && m[|pre|..] == tail;
      LengthAt(m, |pre|, tail);
    } else {
      var e, rest := Encoded(rs[0]), Compound(rs[1..]) + tail;
      assert Compound(rs) + tail == e + rest;
      BytesAssoc(pre, e, rest);
      PacketRead(m, |pre|, rs[0]);
      CompoundRead(pre + e, rs[1..], tail);
    }
  }

  lemma LengthAt(m: Bytes, p: nat, tail: Bytes)
    requires p <= |m| && m[p..] == tail && |tail| >= 4
    ensures U16At(m, p + 2) == U16At(tail, 2)
  {
    assert m[p + 2] == tail[2] && m[p + 3] == tail[3];
  }

  /**
    From any compound message, whatever other packets it has, the responder takes exactly what its
    NACKs ask for, in order, up to where the message breaks off.
   */
  lemma CompoundIsUnderstood(rs: seq<Rtcp>, tail: Bytes)
    requires (forall i :: 0 <= i < |rs| ==> WellFormed(rs[i])) && BreaksOff(tail)
    ensures Requested(Compound(rs) + tail, 0) == Wanted(rs)
  {
    hide Requested, Compound, Wanted, WellFormed, BreaksOff;
    CompoundRead([], rs, tail);
    assert [] + (Compound(rs) + tail) == Compound(rs) + tail;
  }

  /** A message that is handed over: a compound one, up to where it breaks off, or no control message. */
  datatype Handed = Compounded(rs: seq<Rtcp>, tail: Bytes) | NoControl(data: Bytes) {
    ghost predicate Valid() {
      Compounded? ==> (forall i :: 0 <= i < |rs| ==> WellFormed(rs[i])) && BreaksOff(tail)
    }

    ghost function Message(): Message
      requires Valid()
    {
      if Compounded? then Control(Compound(rs) + tail) else Media(data)
    }
  }

  ghost predicate AllValid(hs: seq<Handed>) {
    forall i :: 0 <= i < |hs| ==> hs[i].Valid()
  }

  ghost function Messages(hs: seq<Handed>): (r: seq<Message>)
    requires AllValid(hs)
    ensures |r| == |hs|
  {
    seq(|hs|, i requires 0 <= i < |hs| => hs[i].Message())
  }

  /** What the NACKs in all the control messages ask for. */
  function AllWanted(hs: seq<Handed>): seq<U16> {
    if hs == [] then []
    else AllWanted(hs[..|hs| - 1]) + (if hs[|hs| - 1].Compounded? then Wanted(hs[|hs| - 1].rs) else [])
  }

  /** From any messages the responder takes exactly what the NACKs in the control messages ask for, in order. */
  lemma {:induction false} MessagesAreUnderstood(hs: seq<Handed>)
    requires AllValid(hs)
    ensures AllRequested(Messages(hs)) == AllWanted(hs)
  {
    hide Requested, Compound, Wanted, WellFormed, BreaksOff;
    if hs != [] {
      var n := |hs| - 1;
      MessagesAreUnderstood(hs[..n]);
      assert Messages(hs)[..n] == Messages(hs[..n]);
      assert hs[n].Valid();
      if hs[n].Compounded? {
        CompoundIsUnderstood(hs[n].rs, hs[n].tail);
      }
    }
  }

  // ---------------------------------------------------------------- the service

  /** The newest packet of a list with a given number. */
  function Find(list: seq<Entry>, s: U16): (r: Option<Bytes>)
    ensures r.Some? ==> Entry(s, r.value) in list
    ensures r.None? ==> forall e :: e in list ==> e.seqNumber != s
  {
    if list == [] then None
    else if list[|list| - 1].seqNumber == s then Some(list[|list| - 1].packet)
    else Find(list[..|list| - 1], s)
  }

  /** The packets of a list that have the given numbers, in the order of the numbers. */
  function Select(list: seq<Entry>, numbers: seq<U16>): seq<Bytes> {
    if numbers == [] then []
    else
      var n := |numbers| - 1;
      Select(list, numbers[..n]) +
      (if Find(list, numbers[n]).Some? then [Find(list, numbers[n]).value] else [])
  }

  lemma {:induction false} ResentIsSelected(maxSize: nat, log: seq<Entry>, numbers: seq<U16>)
    requires maxSize > 0 && DistinctWindows(maxSize, log)
    ensures Coherent(Run(maxSize, log))
    ensures Resent(Run(maxSize, log), numbers) == Select(Window(maxSize, log), numbers)
    decreases |numbers|
  {
    hide Coherent, Run, Window, DistinctWindows, Lookup;
    if numbers == [] {
      CacheIsLastPackets(maxSize, log, 0);
    } else {
      var n := |numbers| - 1;
      ResentIsSelected(maxSize, log, numbers[..n]);
      CacheIsLastPackets(maxSize, log, numbers[n]);
      var c, w := Run(maxSize, log), Window(maxSize, log);
      var found := Lookup(c, numbers[n]);
      assert found.Some? ==> Entry(numbers[n], found.value) in w;
    }
  }

  /** Parts of an ascending list start at least seventeen apart. */
  lemma {:induction false} FewParts(list: seq<U16>)
    requires list != [] && forall i, j :: 0 <= i < j < |list| ==> list[i] < list[j]
    ensures Buildable(list) && 17 * (|Built(list)| - 1) <= OpenPid(list)
    decreases |list|
  {
    var n := |list| - 1;
    Cases(list);
    if n == 0 {
      Single(list[0]);
    } else {
      FewParts(list[..n]);
      hide OpenPid, Buildable, Built;
      Unfold(list[..n], list[n]);
      AscendingComesBack(list);
    }
  }

  /** A NACK built for an ascending list asks for exactly that list. */
  lemma NackAsksFor(ssrc: U32, missing: seq<U16>)
    requires forall i, j :: 0 <= i < j < |missing| ==> missing[i] < missing[j]
    ensures Buildable(missing) && |Built(missing)| <= 65533
    ensures Requested(NackBytes(ssrc, Built(missing)), 0) == missing
  {
    AscendingComesBack(missing);
    if missing != [] {
      FewParts(missing);
    }
    assert missing == [] ==> Built(missing) == [];
    hide Buildable, Built, ExpandAll, Requested, NackBytes;
    OnlyFeedback(ssrc, Built(missing));
  }

  lemma OnlyFeedback(ssrc: U32, parts: seq<Part>)
    requires |parts| <= 65533
    ensures Requested(NackBytes(ssrc, parts), 0) == ExpandAll(parts)
  {
    hide Requested, NackBytes, ExpandAll;
    var r := Feedback(ssrc, parts);
    CompoundIsUnderstood([r], []);
    assert Compound([r]) + [] == Compound([r]);
    assert [r][1..] == [];
    assert Encoded(r) == NackBytes(ssrc, parts) && Compound([r][1..]) == [];
    assert Compound([r]) == NackBytes(ssrc, parts) + [];
    assert NackBytes(ssrc, parts) + [] == NackBytes(ssrc, parts) && ExpandAll(parts) + [] == ExpandAll(parts);
    assert Wanted([r]) == ExpandAll(parts) + [];
  }

  /**
    The NACK service: after any run of stores with distinct numbers in every window, a NACK
    built for an ascending list of missing numbers makes the responder send, once each and in
    that order, exactly those packets that are among the last `maxSize`.
   */
  lemma NackService(maxSize: nat, log: seq<Entry>, ssrc: U32, missing: seq<U16>)
    requires maxSize > 0 && DistinctWindows(maxSize, log)
    requires forall i, j :: 0 <= i < j < |missing| ==> missing[i] < missing[j]
    ensures Coherent(Run(maxSize, log))
    ensures Buildable(missing) && |Built(missing)| <= 65533
    ensures Resent(Run(maxSize, log), Requested(NackBytes(ssrc, Built(missing)), 0)) ==
            Select(Window(maxSize, log), missing)
  {
    hide Buildable, Built, DistinctWindows, Coherent, Run, Requested, Resent, Select, Window, NackBytes;
    NackAsksFor(ssrc, missing);
    ResentIsSelected(maxSize, log, missing);
  }

  // ---------------------------------------------------------------- with RTX

  /** A packet of the primary stream whose payload type has an RTX type. */
  ghost predicate Primary(rtx: Settings, primary: U32, p: Bytes) {
    Whole(p) && Ssrc(p) == primary && PayloadType(p) in rtx.types
  }

  ghost predicate AllPrimary(rtx: Settings, primary: U32, ps: seq<Bytes>) {
    forall p :: p in ps ==> Primary(rtx, primary, p)
  }

  /** Each packet is wrapped, under consecutive RTX numbers, `s` being the next one. */
  ghost predicate InTurn(rtx: Settings, first: U16, primary: U32, ps: seq<Bytes>, answers: seq<Bytes>, s: U16) {
    && rtx.ssrc.Some? && |answers| == |ps| && s == (first + |ps|) % 65536
    && forall i :: 0 <= i < |ps| ==>
         Primary(rtx, primary, ps[i]) &&
         answers[i] == Wrapped(ps[i], rtx.ssrc.value, rtx.types[PayloadType(ps[i])], (first + i) % 65536)
  }

  lemma InTurnSnoc(rtx: Settings, first: U16, primary: U32, ps: seq<Bytes>, answers: seq<Bytes>, s: U16, p: Bytes)
    requires InTurn(rtx, first, primary, ps, answers, s) && Primary(rtx, primary, p)
    ensures InTurn(rtx, first, primary, ps + [p],
                   answers + [Wrapped(p, rtx.ssrc.value, rtx.types[PayloadType(p)], s)], (s + 1) % 65536)
  {
    hide Wrapped, Whole, Ssrc, PayloadType;
  }

  lemma PrimaryIsWrapped(rtx: Settings, primary: U32, ps: seq<Bytes>)
    requires rtx.ssrc.Some? && AllPrimary(rtx, primary, ps)
    ensures AllWrappable(rtx, ps)
    ensures forall p :: p in ps ==> Primary(rtx, primary, p) && IsWrapped(rtx.ssrc, rtx.types, p)
  {
    hide Ssrc;
  }

  lemma NoneInTurn(rtx: Settings, first: U16, primary: U32)
    requires rtx.ssrc.Some?
    ensures AllWrappable(rtx, []) && Answers(rtx, first, []) == ([], first) && InTurn(rtx, first, primary, [], [], first)
  {
  }

  lemma {:induction false} WrappedInTurn(rtx: Settings, first: U16, primary: U32, ps: seq<Bytes>)
    requires rtx.enabled && rtx.ssrc.Some? && AllPrimary(rtx, primary, ps)
    ensures AllWrappable(rtx, ps)
    ensures var (answers, s) := Answers(rtx, first, ps); InTurn(rtx, first, primary, ps, answers, s)
    decreases |ps|
  {
    hide Wrapped, Primary, IsWrapped, Answers, InTurn, AllWrappable;
    PrimaryIsWrapped(rtx, primary, ps);
    if ps == [] {
      NoneInTurn(rtx, first, primary);
    } else {
      var n := |ps| - 1;
      var front, p := ps[..n], ps[n];
      assert ps == front + [p] && p in ps;
      WrappedInTurn(rtx, first, primary, front);
      var before := Answers(rtx, first, front);
      AnswersSnoc(rtx, first, front, p);
      InTurnSnoc(rtx, first, primary, front, before.0, before.1, p);
    }
  }

  lemma {:induction false} SelectedAreListed(list: seq<Entry>, numbers: seq<U16>, p: Bytes)
    requires p in Select(list, numbers)
    ensures exists e :: e in list && e.packet == p
    decreases |numbers|
  {
    if numbers != [] {
      var n := |numbers| - 1;
      if p in Select(list, numbers[..n]) {
        SelectedAreListed(list, numbers[..n], p);
      } else {
        assert Entry(numbers[n], p) in list;
      }
    }
  }

  lemma SelectedArePrimary(rtx: Settings, primary: U32, maxSize: nat, log: seq<Entry>, numbers: seq<U16>)
    requires forall e :: e in log ==> Primary(rtx, primary, e.packet)
    ensures AllPrimary(rtx, primary, Select(Window(maxSize, log), numbers))
  {
    hide Primary, Select;
    forall p | p in Select(Window(maxSize, log), numbers)
      ensures Primary(rtx, primary, p)
    {
      SelectedAreListed(Window(maxSize, log), numbers, p);
    }
  }

  /** An answer that the receiver turns back into packet `p`. */
  ghost predicate Delivers(primary: U32, toPrimary: PayloadTypes, ssrc: U32, number: U16, answer: Bytes, p: Bytes) {
    && Readable(answer) && Ssrc(answer) == ssrc && SeqNumber(answer) == number
    && Unwrapped(primary, toPrimary, answer) == Restored(p)
  }

  lemma WrappedDelivers(rtx: Settings, primary: U32, toPrimary: PayloadTypes, p: Bytes, number: U16)
    requires rtx.ssrc.Some? && primary != 0 && Primary(rtx, primary, p) && Inverse(rtx.types, toPrimary)
    ensures Delivers(primary, toPrimary, rtx.ssrc.value, number, Wrapped(p, rtx.ssrc.value, rtx.types[PayloadType(p)], number), p)
  {
    RtxIdentity(p, rtx.ssrc.value, rtx.types, toPrimary, number);
    WrappedLayout(p, rtx.ssrc.value, rtx.types[PayloadType(p)], number);
    hide Wrapped, Unwrapped, Readable, Whole, Ssrc, SeqNumber, Inverse;
  }

  /**
    The NACK service with RTX: what the receiver restores from the answers to a NACK is, once each
    and in order, exactly those missing packets that are among the last `maxSize`, and the answers
    carry consecutive numbers of the RTX stream.
   */
  lemma RtxService(maxSize: nat, log: seq<Entry>, nackSsrc: U32, missing: seq<U16>,
                   rtx: Settings, first: U16, primary: U32, toPrimary: PayloadTypes)
    requires maxSize > 0 && DistinctWindows(maxSize, log)
    requires forall i, j :: 0 <= i < j < |missing| ==> missing[i] < missing[j]
    requires rtx.enabled && rtx.ssrc.Some? && primary != 0 && Inverse(rtx.types, toPrimary)
    requires forall e :: e in log ==> Primary(rtx, primary, e.packet)
    ensures Coherent(Run(maxSize, log)) && Buildable(missing) && |Built(missing)| <= 65533
    ensures var resent := Resent(Run(maxSize, log), Requested(NackBytes(nackSsrc, Built(missing)), 0));
            var selected := Select(Window(maxSize, log), missing);
            && AllWrappable(rtx, resent)
            && var answers := Answers(rtx, first, resent).0;
               && |answers| == |selected|
               && forall i :: 0 <= i < |answers| ==>
                    Delivers(primary, toPrimary, rtx.ssrc.value, (first + i) % 65536, answers[i], selected[i])
  {
    hide Buildable, Built, DistinctWindows, Coherent, Run, Requested, Resent, Select, Window, NackBytes, Answers;
    hide Primary, Inverse, Wrapped, Delivers, AllWrappable, AllPrimary;
    NackService(maxSize, log, nackSsrc, missing);
    var selected := Select(Window(maxSize, log), missing);
    SelectedArePrimary(rtx, primary, maxSize, log, missing);
    WrappedInTurn(rtx, first, primary, selected);
    var answers := Answers(rtx, first, selected).0;
    forall i | 0 <= i < |answers|
      ensures Delivers(primary, toPrimary, rtx.ssrc.value, (first + i) % 65536, answers[i], selected[i])
    {
      WrappedDelivers(rtx, primary, toPrimary, selected[i], (first + i) % 65536);
    }
  }
}
