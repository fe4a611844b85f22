/**
  The reordering buffer in front of the video depacketizers (src/rtpdepacketizer.cpp): packets
  wait, ordered by sequence number, until a marker or another timestamp ends their frame.
 */
module ReorderBuffer {
  import opened Bits
  import opened RtpPacket

  datatype Message = Control(data: Bytes) | Rtp(data: Bytes)

  /** What a step does for the caller: pass a message on, or ask for the buffer's frame. */
  datatype Action = Pass(message: Message) | Reassemble(packets: seq<Bytes>)

  // ---------------------------------------------------------------- the ordered set

  /** `sequence_cmp`: the 16-bit difference, as a signed number, is positive. */
  predicate Less(a: Bytes, b: Bytes)
    requires |a| >= 12 && |b| >= 12
  {
    0 < (SeqNumber(b) - SeqNumber(a)) % 65536 < 32768
  }

  /** Two packets are the same to the ordered set when their numbers are equal, or half the space apart. */
  lemma EquivalentIff(a: Bytes, b: Bytes)
    requires |a| >= 12 && |b| >= 12
    ensures !Less(a, b) && !Less(b, a) <==>
            SeqNumber(a) == SeqNumber(b) || SeqNumber(a) - SeqNumber(b) == 32768 || SeqNumber(b) - SeqNumber(a) == 32768
  {
    hide SeqNumber;
    var x: int, y: int := SeqNumber(a), SeqNumber(b);
    assert (y - x) % 65536 == if y >= x then y - x else y - x + 65536;
    assert (x - y) % 65536 == if x >= y then x - y else x - y + 65536;
  }

  ghost predicate Headers(buffer: seq<Bytes>) {
    forall p :: p in buffer ==> |p| >= 12
  }

  /** Insertion into the ordered set: before the first element that is not less, unless equivalent. */
  function Insert(buffer: seq<Bytes>, p: Bytes): (r: seq<Bytes>)
    requires Headers(buffer) && |p| >= 12
    ensures r != []
    ensures forall q :: q in r ==> q in buffer || q == p
    ensures forall q :: q in buffer ==> q in r
  {
    if buffer == [] then [p]
    else if Less(buffer[0], p) then [buffer[0]] + Insert(buffer[1..], p)
    else if Less(p, buffer[0]) then [p] + buffer
    else buffer
  }

  // ---------------------------------------------------------------- one message

  /** A packet whose fixed header is complete. */
  predicate Complete(p: Bytes) {
    |p| >= 12 && FixedSize(p) <= |p|
  }

  /**
    A packet of RFC 3550 is complete also without any payload, and what is cut off in front of the
    end of its contributing sources is not.
   */
  lemma CompleteIff(h: Header, csrcs: seq<U32>, extension: Bytes, payload: Bytes, padded: bool, fill: Bytes, k: nat)
    requires h.payloadType < 128 && |csrcs| < 16 && |fill| < 255 && IsExtension(extension)
    requires k <= |Layout(h, csrcs, extension, payload, padded, fill)|
    ensures Complete(Layout(h, csrcs, extension, payload, padded, fill)[..k]) <==> k >= 12 + 4 * |csrcs|
  {
    hide Layout, IsExtension;
    LayoutIsReadable(h, csrcs, extension, payload, padded, fill);
    var p := Layout(h, csrcs, extension, payload, padded, fill);
    assert k >= 12 ==> p[..k][0] == p[0];
  }

  /** The buffer after the flush that a new timestamp causes. */
  predicate Flushes(buffer: seq<Bytes>, p: Bytes)
    requires Headers(buffer) && |p| >= 12
  {
    buffer != [] && Timestamp(buffer[0]) != Timestamp(p)
  }

  function Step(buffer: seq<Bytes>, m: Message): (r: (seq<Bytes>, seq<Action>))
    requires Headers(buffer)
    ensures Headers(r.0)
  {
    if m.Control? then (buffer, [Pass(m)])
    else if !Complete(m.data) then (buffer, [])
    else
      var p := m.data;
      var flushed := if Flushes(buffer, p) then [] else buffer;
      var first := if Flushes(buffer, p) then [Reassemble(buffer)] else [];
      var inserted := Insert(flushed, p);
      if Marker(p) then ([], first + [Reassemble(inserted)]) else (inserted, first)
  }

  function Run(buffer: seq<Bytes>, ms: seq<Message>): (r: (seq<Bytes>, seq<Action>))
    requires Headers(buffer)
    ensures Headers(r.0)
  {
    if ms == [] then (buffer, [])
    else
      var before := Run(buffer, ms[..|ms| - 1]);
      var last := Step(before.0, ms[|ms| - 1]);
      (last.0, before.1 + last.1)
  }

  // ---------------------------------------------------------------- the object

  datatype Output<+F> = Passed(message: Message) | Frame(frame: F)

  /** What a depacketizer's `reassemble` comes to. */
  datatype Reassembly<+F> = NoFrame | Made(frame: F) | Throws

  function Framed<F>(r: Reassembly<F>): seq<Output<F>> {
    if r.Made? then [Frame(r.frame)] else []
  }

  /** What the caller gets for the actions, given the depacketizer's `reassemble`. */
  function Results<F>(reassemble: seq<Bytes> -> Reassembly<F>, actions: seq<Action>): seq<Output<F>> {
    if actions == [] then []
    else
      var n := |actions| - 1;
      Results(reassemble, actions[..n]) +
      match actions[n]
      case Pass(m) => [Passed(m)]
      case Reassemble(packets) => Framed(reassemble(packets))
  }

  lemma {:induction false} ResultsMore<F>(reassemble: seq<Bytes> -> Reassembly<F>, a: seq<Action>, b: seq<Action>)
    ensures Results(reassemble, a + b) == Results(reassemble, a) + Results(reassemble, b)
    decreases |b|
  {
    if b == [] {
      assert a + b == a;
    } else {
      var n := |b| - 1;
      ResultsMore(reassemble, a, b[..n]);
      assert (a + b)[..|a + b| - 1] == a + b[..n];
    }
  }

  /** The buffer, what is handed on, and whether `reassemble` has thrown; an exception leaves the buffer and takes the results. */
  datatype Taken<+F> = Taken(buffer: seq<Bytes>, result: seq<Output<F>>, threw: bool)

  /** One message, with a `reassemble` that may throw. */
  function Tried<F>(reassemble: seq<Bytes> -> Reassembly<F>, buffer: seq<Bytes>, m: Message): (t: Taken<F>)
    requires Headers(buffer)
    ensures Headers(t.buffer)
  {
    if m.Control? then Taken(buffer, [Passed(m)], false)
    else if !Complete(m.data) then Taken(buffer, [], false)
    else
      var p := m.data;
      if Flushes(buffer, p) && reassemble(buffer).Throws? then Taken(buffer, [], true)
      else
        var flushed := if Flushes(buffer, p) then [] else buffer;
        var first := if Flushes(buffer, p) then Framed(reassemble(buffer)) else [];
        var inserted := Insert(flushed, p);
        if !Marker(p) then Taken(inserted, first, false)
        else if reassemble(inserted).Throws? then Taken(inserted, [], true)
        else Taken([], first + Framed(reassemble(inserted)), false)
  }

  function TriedAll<F>(reassemble: seq<Bytes> -> Reassembly<F>, buffer: seq<Bytes>, ms: seq<Message>): (t: Taken<F>)
    requires Headers(buffer)
    ensures Headers(t.buffer)
  {
    if ms == [] then Taken(buffer, [], false)
    else
      var before := TriedAll(reassemble, buffer, ms[..|ms| - 1]);
      if before.threw then before
      else
        var last := Tried(reassemble, before.buffer, ms[|ms| - 1]);
        if last.threw then last else Taken(last.buffer, before.result + last.result, false)
  }

  class VideoDepacketizer<!F> {
    const reassemble: seq<Bytes> -> Reassembly<F>
    var buffer: seq<Bytes>

    constructor (f: seq<Bytes> -> Reassembly<F>)
      ensures reassemble == f && buffer == []
    {
      reassemble, buffer := f, [];
    }

    /** The body of the loop of `incoming`. */
    method Take(m: Message) returns (result: seq<Output<F>>, threw: bool)
      requires Headers(buffer)
      modifies this`buffer
      ensures Taken(buffer, result, threw) == Tried(reassemble, old(buffer), m)
    {
      hide Insert;
      result, threw := [], false;
      if m.Control? {
        return [Passed(m)], false;
      }
      var p := m.data;
      if |p| < 12 {
        return;
      }
      if |p| < FixedSize(p) {
        return;
      }
      if buffer != [] && Timestamp(buffer[0]) != Timestamp(p) {
        var frame := reassemble(buffer);
        if frame.Throws? {
          return [], true;
        }
        result := Framed(frame);
        buffer := [];
      }
      buffer := Insert(buffer, p);
      if Marker(p) {
        var frame := reassemble(buffer);
        if frame.Throws? {
          return [], true;
        }
        result := result + Framed(frame);
        buffer := [];
      }
    }

    /** `incoming` */
    method Incoming(ms: seq<Message>) returns (result: seq<Output<F>>, threw: bool)
      requires Headers(buffer)
      modifies this`buffer
      ensures Taken(buffer, result, threw) == TriedAll(reassemble, old(buffer), ms)
    {
      hide Tried;
      result, threw := [], false;
      for i := 0 to |ms|
        invariant Headers(buffer)
        invariant Taken(buffer, result, false) == TriedAll(reassemble, old(buffer), ms[..i])
      {
        assert ms[..i + 1][..i] == ms[..i];
        var more, failed := Take(ms[i]);
        if failed {
          Stuck(reassemble, old(buffer), ms, i + 1);
          return more, true;
        }
        result := result + more;
      }
      assert ms[..|ms|] == ms;
    }
  }

  /** After an exception the rest of the messages is not looked at. */
  lemma {:induction false} Stuck<F>(reassemble: seq<Bytes> -> Reassembly<F>, buffer: seq<Bytes>, ms: seq<Message>, i: nat)
    requires Headers(buffer) && i <= |ms| && TriedAll(reassemble, buffer, ms[..i]).threw
    ensures TriedAll(reassemble, buffer, ms) == TriedAll(reassemble, buffer, ms[..i])
    decreases |ms| - i
  {
    hide Tried;
    if i == |ms| {
      assert ms[..i] == ms;
    } else {
      assert ms[..i + 1][..i] == ms[..i];
      Stuck(reassemble, buffer, ms, i + 1);
    }
  }

  // ---------------------------------------------------------------- with and without exceptions

  ghost predicate Raises<F>(reassemble: seq<Bytes> -> Reassembly<F>, a: Action) {
    a.Reassemble? && reassemble(a.packets).Throws?
  }

  lemma ResultsOne<F>(reassemble: seq<Bytes> -> Reassembly<F>, a: Action)
    ensures Results(reassemble, [a]) == match a case Pass(m) => [Passed(m)] case Reassemble(packets) => Framed(reassemble(packets))
    ensures Results(reassemble, []) == []
  {
    assert [a][..0] == [];
  }

  lemma TriedIsStep<F>(reassemble: seq<Bytes> -> Reassembly<F>, buffer: seq<Bytes>, m: Message)
    requires Headers(buffer)
    ensures var t, (after, actions) := Tried(reassemble, buffer, m), Step(buffer, m);
            && (t.threw <==> exists a :: a in actions && Raises(reassemble, a))
            && (!t.threw ==> t == Taken(after, Results(reassemble, actions), false))
  {
    hide Insert, Flushes, Marker, FixedSize, Results, Framed;
    ResultsOne(reassemble, Pass(m));
    if m.Rtp? && Complete(m.data) {
      var p := m.data;
      var flushed := if Flushes(buffer, p) then [] else buffer;
      var first, last := Reassemble(buffer), Reassemble(Insert(flushed, p));
      ResultsOne(reassemble, first);
      ResultsOne(reassemble, last);
      ResultsMore(reassemble, [first], [last]);
      ResultsMore(reassemble, [], [last]);
      assert [] + [last] == [last];
      assert first in [first] && last in [last] && first in [first] + [last] && last in [first] + [last];
    }
  }

  /**
    Over every list of messages: `incoming` throws if and only if the reassembler throws on one of
    the buffers it would be given, and otherwise does what the steps without exceptions do.
   */
  lemma {:induction false} ThrowsIff<F>(reassemble: seq<Bytes> -> Reassembly<F>, buffer: seq<Bytes>, ms: seq<Message>)
    requires Headers(buffer)
    ensures var t, (after, actions) := TriedAll(reassemble, buffer, ms), Run(buffer, ms);
            && (t.threw <==> exists a :: a in actions && Raises(reassemble, a))
            && (!t.threw ==> t == Taken(after, Results(reassemble, actions), false))
    decreases |ms|
  {
    hide Tried, Step, Results, Raises;
    if ms == [] {
      NoActions(reassemble);
    } else {
      var n := |ms| - 1;
      ThrowsIff(reassemble, buffer, ms[..n]);
      var before := Run(buffer, ms[..n]);
      TriedIsStep(reassemble, before.0, ms[n]);
      ResultsMore(reassemble, before.1, Step(before.0, ms[n]).1);
    }
  }

  /**
    A buffer on which the reassembler throws is not cleared: as long as no packet of its own
    timestamp comes, every later packet meets the same exception and the buffer stays.
   */
  lemma {:induction false} ExceptionKeepsBuffer<F>(reassemble: seq<Bytes> -> Reassembly<F>, buffer: seq<Bytes>, ms: seq<Message>)
    requires Headers(buffer) && buffer != [] && reassemble(buffer).Throws?
    requires forall i :: 0 <= i < |ms| && ms[i].Rtp? && Complete(ms[i].data) ==> Timestamp(ms[i].data) != Timestamp(buffer[0])
    ensures TriedAll(reassemble, buffer, ms).buffer == buffer
    ensures TriedAll(reassemble, buffer, ms).threw <==> exists i :: 0 <= i < |ms| && ms[i].Rtp? && Complete(ms[i].data)
    decreases |ms|
  {
    if ms != [] {
      hide Insert, Timestamp, FixedSize, Marker;
      ExceptionKeepsBuffer(reassemble, buffer, ms[..|ms| - 1]);
    }
  }

  lemma NoActions<F>(reassemble: seq<Bytes> -> Reassembly<F>)
    ensures Results(reassemble, []) == []
  {
  }

  // ---------------------------------------------------------------- every step of every run

  ghost predicate OneTimestamp(packets: seq<Bytes>) {
    Headers(packets) && forall p, q :: p in packets && q in packets ==> Timestamp(p) == Timestamp(q)
  }

  /** What waits in the buffer: packets of one timestamp, none of them the last of its frame. */
  ghost predicate Pending(buffer: seq<Bytes>) {
    OneTimestamp(buffer) && forall p :: p in buffer ==> Complete(p) && !Marker(p)
  }

  /** What a reassembler may be given. */
  ghost predicate OneFrame(a: Action) {
    a.Reassemble? ==> a.packets != [] && OneTimestamp(a.packets)
  }

  lemma StepKeepsPending(buffer: seq<Bytes>, m: Message)
    requires Pending(buffer)
    ensures Pending(Step(buffer, m).0)
    ensures forall a :: a in Step(buffer, m).1 ==> OneFrame(a)
  {
    hide Insert, Timestamp, FixedSize, Marker;
  }

  /**
    After every run the buffered packets share one timestamp and none carries the marker, and
    no call of the reassembler mixed timestamps.
   */
  lemma {:induction false} NeverMixes(ms: seq<Message>)
    ensures Pending(Run([], ms).0)
    ensures forall a :: a in Run([], ms).1 ==> OneFrame(a)
    decreases |ms|
  {
    if ms != [] {
      var n := |ms| - 1;
      NeverMixes(ms[..n]);
      StepKeepsPending(Run([], ms[..n]).0, ms[n]);
      hide Step, Pending, OneFrame;
    }
  }

  // ---------------------------------------------------------------- conservation

  /** All packets that have been handed to the reassembler, call after call. */
  function Handed(actions: seq<Action>): seq<Bytes> {
    if actions == [] then []
    else
      var n := |actions| - 1;
      Handed(actions[..n]) + (if actions[n].Reassemble? then actions[n].packets else [])
  }

  lemma {:induction false} HandedMore(a: seq<Action>, b: seq<Action>)
    ensures Handed(a + b) == Handed(a) + Handed(b)
    decreases |b|
  {
    if b == [] {
      assert a + b == a;
    } else {
      var n := |b| - 1;
      HandedMore(a, b[..n]);
      assert (a + b)[..|a + b| - 1] == a + b[..n];
    }
  }

  /** The packet a message brings, if its header is complete. */
  function Brought(m: Message): seq<Bytes> {
    if m.Rtp? && Complete(m.data) then [m.data] else []
  }

  function Arrived(ms: seq<Message>): seq<Bytes> {
    if ms == [] then [] else Arrived(ms[..|ms| - 1]) + Brought(ms[|ms| - 1])
  }

  /** What waits when a packet is about to be inserted. */
  function Waiting(buffer: seq<Bytes>, p: Bytes): (r: seq<Bytes>)
    requires Headers(buffer) && |p| >= 12
    ensures Headers(r)
  {
    if Flushes(buffer, p) then [] else buffer
  }

  /** The set holds an element that the comparator does not tell from `p`. */
  ghost predicate HasEquivalent(buffer: seq<Bytes>, p: Bytes)
    requires Headers(buffer) && |p| >= 12
  {
    exists q :: q in buffer && !Less(q, p) && !Less(p, q)
  }

  lemma {:induction false} InsertContents(buffer: seq<Bytes>, p: Bytes)
    requires Headers(buffer) && |p| >= 12
    ensures Insert(buffer, p) != buffer ==> multiset(Insert(buffer, p)) == multiset(buffer) + multiset([p])
    ensures Insert(buffer, p) == buffer ==> HasEquivalent(buffer, p)
    decreases |buffer|
  {
    if buffer != [] {
      hide Less, Insert;
      InsertUnfolds(buffer, p);
      assert buffer == [buffer[0]] + buffer[1..];
      if Less(buffer[0], p) {
        InsertContents(buffer[1..], p);
        assert Insert(buffer, p)[1..] == Insert(buffer[1..], p);
      } else if Less(p, buffer[0]) {
        assert |[p] + buffer| == 1 + |buffer|;
      } else {
        assert buffer[0] in buffer;
      }
    }
  }

  lemma InsertUnfolds(buffer: seq<Bytes>, p: Bytes)
    requires Headers(buffer) && |p| >= 12 && buffer != []
    ensures Headers(buffer[1..])
    ensures Insert(buffer, p) ==
            if Less(buffer[0], p) then [buffer[0]] + Insert(buffer[1..], p)
            else if Less(p, buffer[0]) then [p] + buffer
            else buffer
  {
  }

  /** The packet that a message brings and the set refuses. */
  function Refused(buffer: seq<Bytes>, m: Message): seq<Bytes>
    requires Headers(buffer)
  {
    if Brought(m) != [] && Insert(Waiting(buffer, m.data), m.data) == Waiting(buffer, m.data) then [m.data]
    else []
  }

  function AllRefused(ms: seq<Message>): seq<Bytes> {
    if ms == [] then []
    else AllRefused(ms[..|ms| - 1]) + Refused(Run([], ms[..|ms| - 1]).0, ms[|ms| - 1])
  }

  /** A packet is refused only for one of its own timestamp that waits and that the comparator equates with it. */
  lemma RefusedForEquivalent(buffer: seq<Bytes>, m: Message)
    requires Headers(buffer) && Refused(buffer, m) != []
    ensures !Flushes(buffer, m.data) && HasEquivalent(buffer, m.data)
  {
    InsertContents(Waiting(buffer, m.data), m.data);
  }

  /** Everything that has gone to the reassembler or still waits. */
  ghost function Total(r: (seq<Bytes>, seq<Action>)): multiset<Bytes> {
    multiset(Handed(r.1)) + multiset(r.0)
  }

  lemma InsertBalance(buffer: seq<Bytes>, m: Message)
    requires Headers(buffer) && m.Rtp? && Complete(m.data)
    ensures var w := Waiting(buffer, m.data);
            multiset(Insert(w, m.data)) + multiset(Refused(buffer, m)) == multiset(w) + multiset([m.data])
  {
    InsertContents(Waiting(buffer, m.data), m.data);
    hide Insert, Waiting, HasEquivalent;
  }

  lemma FlushBalance(buffer: seq<Bytes>, p: Bytes)
    requires Headers(buffer) && |p| >= 12
    ensures var first := if Flushes(buffer, p) then [Reassemble(buffer)] else [];
            multiset(Handed(first)) + multiset(Waiting(buffer, p)) == multiset(buffer)
  {
    HandedNone();
    HandedOne(Reassemble(buffer));
    hide Handed, Flushes;
  }

  lemma LastBalance(first: seq<Action>, w: seq<Bytes>)
    ensures multiset(Handed(first + [Reassemble(w)])) == multiset(Handed(first)) + multiset(w)
  {
    HandedOne(Reassemble(w));
    HandedMore(first, [Reassemble(w)]);
    hide Handed;
  }

  lemma Substitute(h: multiset<Bytes>, i: multiset<Bytes>, r: multiset<Bytes>, w: multiset<Bytes>, b: multiset<Bytes>, p: multiset<Bytes>)
    requires h + w == b && i + r == w + p
    ensures h + i + r == b + p
  {
    forall x: Bytes
      ensures (h + i + r)[x] == (b + p)[x]
    {
      assert (h + w)[x] == b[x] && (i + r)[x] == (w + p)[x];
    }
  }

  /** After a complete packet: what was flushed, and what waits with the packet inserted. */
  lemma StepTotal(buffer: seq<Bytes>, p: Bytes)
    requires Headers(buffer) && Complete(p)
    ensures var first := if Flushes(buffer, p) then [Reassemble(buffer)] else [];
            Total(Step(buffer, Rtp(p))) == multiset(Handed(first)) + multiset(Insert(Waiting(buffer, p), p))
  {
    hide Handed, Flushes, Marker, Insert;
    LastBalance(if Flushes(buffer, p) then [Reassemble(buffer)] else [], Insert(Waiting(buffer, p), p));
  }

  /** Inserting, and handing over at a marker, keeps what waits, the new packet and what is refused. */
  lemma StepContents(buffer: seq<Bytes>, m: Message)
    requires Headers(buffer)
    ensures Total(Step(buffer, m)) + multiset(Refused(buffer, m)) == multiset(buffer) + multiset(Brought(m))
  {
    if m.Control? {
      HandedOne(Pass(m));
    } else if !Complete(m.data) {
      HandedNone();
    } else {
      var p := m.data;
      StepTotal(buffer, p);
      InsertBalance(buffer, m);
      FlushBalance(buffer, p);
      assert Brought(m) == [p];
      hide Total, Step, Refused, Insert, Handed, Flushes, Waiting, Brought;
      var first := if Flushes(buffer, p) then [Reassemble(buffer)] else [];
      Substitute(multiset(Handed(first)), multiset(Insert(Waiting(buffer, p), p)), multiset(Refused(buffer, m)),
                 multiset(Waiting(buffer, p)), multiset(buffer), multiset([p]));
    }
  }

  lemma HandedNone()
    ensures Handed([]) == []
  {
  }

  lemma HandedOne(a: Action)
    ensures Handed([a]) == if a.Reassemble? then a.packets else []
  {
    assert [a][..0] == [];
  }

  lemma Balance(t: multiset<Bytes>, before: multiset<Bytes>, step: multiset<Bytes>, waiting: multiset<Bytes>,
                refused: multiset<Bytes>, r: multiset<Bytes>, arrived: multiset<Bytes>, b: multiset<Bytes>)
    requires before + refused == arrived && step + r == waiting + b && t + waiting == before + step
    ensures t + (refused + r) == arrived + b
  {
    forall x: Bytes
      ensures (t + (refused + r))[x] == (arrived + b)[x]
    {
      assert (before + refused)[x] == arrived[x] && (step + r)[x] == (waiting + b)[x];
      assert (t + waiting)[x] == (before + step)[x];
    }
  }

  lemma Unfold(ms: seq<Message>)
    requires ms != []
    ensures var n := |ms| - 1;
            var before := Run([], ms[..n]);
            var step := Step(before.0, ms[n]);
            && Run([], ms) == (step.0, before.1 + step.1)
            && multiset(AllRefused(ms)) == multiset(AllRefused(ms[..n])) + multiset(Refused(before.0, ms[n]))
            && multiset(Arrived(ms)) == multiset(Arrived(ms[..n])) + multiset(Brought(ms[n]))
  {
    hide Step, Brought, Refused;
  }

  /** After every run: each complete packet was handed on once, still waits, or was refused. */
  lemma {:induction false} NothingLostOrTwice(ms: seq<Message>)
    ensures Total(Run([], ms)) + multiset(AllRefused(ms)) == multiset(Arrived(ms))
    decreases |ms|
  {
    if ms != [] {
      hide Total, Step, Brought, Refused, Run, AllRefused, Arrived;
      var n := |ms| - 1;
      NothingLostOrTwice(ms[..n]);
      Unfold(ms);
      var before := Run([], ms[..n]);
      var step := Step(before.0, ms[n]);
      StepContents(before.0, ms[n]);
      TotalMore(before, step);
      Balance(Total(Run([], ms)), Total(before), Total(step), multiset(before.0), multiset(AllRefused(ms[..n])),
              multiset(Refused(before.0, ms[n])), multiset(Arrived(ms[..n])), multiset(Brought(ms[n])));
    } else {
      HandedNone();
    }
  }

  lemma TotalMore(before: (seq<Bytes>, seq<Action>), step: (seq<Bytes>, seq<Action>))
    ensures Total((step.0, before.1 + step.1)) + multiset(before.0) == Total(before) + Total(step)
  {
    HandedMore(before.1, step.1);
    hide Handed;
  }
}
