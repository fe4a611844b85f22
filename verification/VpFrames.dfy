/**
  VP8 and VP9 end to end (src/vp8rtppacketizer.cpp, src/vp8rtpdepacketizer.cpp,
  src/vp9rtppacketizer.cpp, src/vp9rtpdepacketizer.cpp): a frame arrives complete or not at all.
 */
module VpFrames {
  import opened Bits
  import opened RtpPacket
  import opened SequenceCheck
  import opened VpCodec
  import opened VpDescriptors

  function Flat(parts: seq<Bytes>): Bytes {
    if parts == [] then [] else Flat(parts[..|parts| - 1]) + parts[|parts| - 1]
  }

  lemma FlatSnoc(parts: seq<Bytes>, p: Bytes)
    ensures Flat(parts + [p]) == Flat(parts) + p
  {
    assert (parts + [p])[..|parts|] == parts;
  }

  // ---------------------------------------------------------------- packetizing

  /** The data of the fragments, all of `room` bytes but the last. */
  function Chunks(frame: Bytes, room: nat, index: nat, acc: seq<Bytes>): seq<Bytes>
    requires room > 0 && index <= |frame|
    decreases |frame| - index
  {
    if index == |frame| then acc
    else
      var e := if index + room <= |frame| then index + room else |frame|;
      Chunks(frame, room, e, acc + [frame[index..e]])
  }

  /** The fragments from `index` on: a descriptor and up to `room` bytes of the frame. */
  function FragmentsFrom(vp: Vp, frame: Bytes, room: nat, index: nat, acc: seq<Bytes>): seq<Bytes>
    requires room > 0 && frame != [] && index <= |frame|
    decreases |frame| - index
  {
    if index == |frame| then acc
    else
      var e := if index + room <= |frame| then index + room else |frame|;
      FragmentsFrom(vp, frame, room, e,
                    acc + [[vp.Descriptor(frame, index == 0, e == |frame|)] + frame[index..e]])
  }

  function Fragments(vp: Vp, frame: Bytes, max: nat): seq<Bytes> {
    if vp.Sends(frame, max) then FragmentsFrom(vp, frame, max - 1, 0, []) else []
  }

  /** Nothing is sent of a frame too short to be one, or without room behind the descriptor. */
  lemma {:induction false} NothingSentIff(vp: Vp, frame: Bytes, max: nat)
    ensures Fragments(vp, frame, max) == [] <==> max <= 1 || |frame| < (if vp.VP8? then 3 else 1)
  {
    if vp.Sends(frame, max) {
      assert Flat([]) == frame[..0];
      ChunksAreTheFrame(frame, max - 1, 0, []);
      FragmentsAreChunks(vp, frame, max - 1, 0, [], |Chunks(frame, max - 1, 0, [])|);
      assert Described(vp, frame, [], |Chunks(frame, max - 1, 0, [])|) == [];
    }
  }

  /** `fragment` of both packetizers. */
  method Fragment(vp: Vp, frame: Bytes, max: nat) returns (payloads: seq<Bytes>)
    ensures payloads == Fragments(vp, frame, max)
  {
    hide Vp.Descriptor;
    if !vp.Sends(frame, max) {
      return [];
    }
    payloads := [];
    var index := 0;
    while index < |frame|
      invariant index <= |frame|
      invariant FragmentsFrom(vp, frame, max - 1, index, payloads) == Fragments(vp, frame, max)
    {
      var remaining := |frame| - index;
      var size := if max - 1 <= remaining then max - 1 else remaining;
      var isFirst, isLast := index == 0, index + size >= |frame|;
      payloads := payloads + [[vp.Descriptor(frame, isFirst, isLast)] + frame[index..index + size]];
      index := index + size;
    }
  }

  /** The chunks behind their descriptors. */
  function Described(vp: Vp, frame: Bytes, chunks: seq<Bytes>, total: nat): (r: seq<Bytes>)
    requires frame != []
    ensures |r| == |chunks|
  {
    seq(|chunks|, i requires 0 <= i < |chunks| =>
      [vp.Descriptor(frame, i == 0, i == total - 1)] + chunks[i])
  }

  lemma {:induction false} ChunksAreTheFrame(frame: Bytes, room: nat, index: nat, acc: seq<Bytes>)
    requires room > 0 && index <= |frame| && Flat(acc) == frame[..index]
    ensures var cs := Chunks(frame, room, index, acc);
            && Flat(cs) == frame
            && |acc| <= |cs| && (index < |frame| <==> |acc| < |cs|)
    decreases |frame| - index
  {
    if index < |frame| {
      var e := if index + room <= |frame| then index + room else |frame|;
      FlatSnoc(acc, frame[index..e]);
      assert frame[..index] + frame[index..e] == frame[..e];
      ChunksAreTheFrame(frame, room, e, acc + [frame[index..e]]);
    }
  }

  lemma DescribedSnoc(vp: Vp, frame: Bytes, chunks: seq<Bytes>, data: Bytes, total: nat)
    requires frame != []
    ensures Described(vp, frame, chunks + [data], total) ==
            Described(vp, frame, chunks, total) +
            [[vp.Descriptor(frame, chunks == [], |chunks| == total - 1)] + data]
  {
  }

  /** The fragments are the chunks of the frame, each behind its descriptor. */
  lemma {:induction false} FragmentsAreChunks(vp: Vp, frame: Bytes, room: nat, index: nat, acc: seq<Bytes>, total: nat)
    requires room > 0 && frame != [] && index <= |frame| && Flat(acc) == frame[..index]
    requires index == 0 <==> acc == []
    requires total == |Chunks(frame, room, index, acc)|
    ensures FragmentsFrom(vp, frame, room, index, Described(vp, frame, acc, total)) ==
            Described(vp, frame, Chunks(frame, room, index, acc), total)
    decreases |frame| - index
  {
    hide Vp.Descriptor, Described;
    if index < |frame| {
      var e := if index + room <= |frame| then index + room else |frame|;
      var data := frame[index..e];
      FlatSnoc(acc, data);
      assert frame[..index] + data == frame[..e];
      ChunksAreTheFrame(frame, room, e, acc + [data]);
      assert (e == |frame|) == (|acc| == total - 1);
      DescribedSnoc(vp, frame, acc, data, total);
      FragmentsAreChunks(vp, frame, room, e, acc + [data], total);
    }
  }

  // ---------------------------------------------------------------- reassembling

  datatype State = State(frame: Bytes, pending: seq<Bytes>, continuous: bool)

  const Start := State([], [], false)

  /** One round of the packet loop. */
  function Step(vp: Vp, st: State, v: Verdict, payload: Bytes, marker: bool): State {
    if v == Skip then st
    else
      var continuous := st.continuous && v == Next;
      if payload == [] then State(st.frame, st.pending, continuous)
      else
        var size := vp.DescriptorSize(payload);
        if size.Truncated? || size.n > |payload| then State(st.frame, st.pending, continuous)
        else Take(st.frame, st.pending, continuous, vp.StartsFrame(payload[0]), marker, payload[size.n..])
  }

  /** What a readable payload does to the frame under construction. */
  function Take(frame: Bytes, pending: seq<Bytes>, continuous: bool, start: bool, marker: bool, data: Bytes): State {
    if start || marker then
      var frame' :=
        if continuous then frame + Flat(pending) + (if marker then data else [])
        else if start && marker then frame + data
        else frame;
      State(frame', if marker then [] else [data], true)
    else State(frame, pending + [data], continuous)
  }

  function After(vp: Vp, seqs: seq<U16>, payloads: seq<Bytes>, markers: seq<bool>, i: nat): State
    requires i <= |seqs| == |payloads| == |markers|
  {
    if i == 0 then Start
    else
      Step(vp, After(vp, seqs, payloads, markers, i - 1), VerdictOf(seqs, i - 1), payloads[i - 1], markers[i - 1])
  }

  function MarkersOf(packets: seq<Bytes>): (s: seq<bool>)
    requires AllReadable(packets)
    ensures |s| == |packets|
  {
    seq(|packets|, i requires 0 <= i < |packets| => assert Readable(packets[i]); Marker(packets[i]))
  }

  datatype Outcome = NoFrame | Frame(bytes: Bytes)

  function Reassembled(vp: Vp, packets: seq<Bytes>): Outcome
    requires AllReadable(packets)
  {
    if packets == [] then NoFrame
    else
      var st := After(vp, Seqs(packets), PayloadsOf(packets), MarkersOf(packets), |packets|);
      if st.frame == [] then NoFrame else Frame(st.frame)
  }

  /** `reassemble` of both depacketizers. */
  method Reassemble(vp: Vp, packets: seq<Bytes>) returns (r: Outcome)
    requires AllReadable(packets)
    ensures r == Reassembled(vp, packets)
  {
    hide Vp.DescriptorSize, Payload, SeqNumber, Marker;
    if packets == [] {
      return NoFrame;
    }
    ghost var seqs, payloads, markers := Seqs(packets), PayloadsOf(packets), MarkersOf(packets);
    var nextSeqNumber := SeqNumber(packets[0]);
    var frame: Bytes := [];
    var pending: seq<Bytes> := [];
    var continuous := false;
    for i := 0 to |packets|
      invariant nextSeqNumber == Expected(seqs, i)
      invariant After(vp, seqs, payloads, markers, i) == State(frame, pending, continuous)
    {
      var s := SeqNumber(packets[i]);
      if s < nextSeqNumber {
        continue;
      }
      if s > nextSeqNumber {
        continuous := false;
      }
      nextSeqNumber := Succ16(s);
      var payload := Payload(packets[i]);
      if payload == [] {
        continue;
      }
      var size := ReadDescriptor(vp, payload);
      if size.Truncated? || size.n > |payload| {
        continue;
      }
      frame, pending, continuous :=
        Absorb(frame, pending, continuous, vp.StartsFrame(payload[0]), Marker(packets[i]), payload[size.n..]);
    }
    r := if frame == [] then NoFrame else Frame(frame);
  }

  /** The end of the loop body, with the loop that appends the pending payloads. */
  method Absorb(frame: Bytes, pending: seq<Bytes>, continuous: bool, start: bool, marker: bool, data: Bytes)
    returns (frame': Bytes, pending': seq<Bytes>, continuous': bool)
    ensures State(frame', pending', continuous') == Take(frame, pending, continuous, start, marker, data)
  {
    frame', pending', continuous' := frame, pending, continuous;
    if start || marker {
      if continuous {
        for k := 0 to |pending|
          invariant frame' == frame + Flat(pending[..k])
        {
          assert pending[..k + 1][..k] == pending[..k];
          frame' := frame' + pending[k];
        }
        assert pending[..|pending|] == pending;
        if marker {
          frame' := frame' + data;
        }
      } else if start && marker {
        frame' := frame' + data;
      }
      pending' := [];
      continuous' := true;
    }
    if !marker {
      pending' := pending' + [data];
    }
  }

  // ---------------------------------------------------------------- whole partitions

  lemma {:induction false} FlatConcat(a: seq<Bytes>, b: seq<Bytes>)
    ensures Flat(a + b) == Flat(a) + Flat(b)
    decreases |b|
  {
    if b == [] {
      assert a + b == a;
    } else {
      var n := |b| - 1;
      FlatConcat(a, b[..n]);
      FlatSnoc(a + b[..n], b[n]);
      assert a + b == (a + b[..n]) + [b[n]];
    }
  }

  /** The chunks at positions `ks`. */
  function Pick(chunks: seq<Bytes>, ks: seq<nat>): (r: seq<Bytes>)
    requires forall i :: 0 <= i < |ks| ==> ks[i] < |chunks|
    ensures |r| == |ks|
  {
    seq(|ks|, i requires 0 <= i < |ks| => chunks[ks[i]])
  }

  /**
    Ascending positions, and with one of them all of its partition: `starts` says which packets
    start one.
   */
  ghost predicate WholePartitions(starts: seq<bool>, ks: seq<nat>) {
    && (forall i, j :: 0 <= i < j < |ks| ==> ks[i] < ks[j])
    && (forall i :: 0 <= i < |ks| ==> ks[i] < |starts|)
    && (forall k :: 0 < k < |starts| && !starts[k] ==> (k in ks <==> k - 1 in ks))
  }

  /** The frame is the chunks at `ks`, all of them whole partitions that have been seen. */
  ghost predicate Keeps(starts: seq<bool>, chunks: seq<Bytes>, frame: Bytes, ks: seq<nat>, seen: set<nat>) {
    && |starts| == |chunks| && WholePartitions(starts, ks)
    && frame == Flat(Pick(chunks, ks))
    && forall k :: k in ks ==> k in seen
  }

  /** The pending chunks are those of the partition that starts at `a`, up to `q`. */
  ghost predicate Awaits(starts: seq<bool>, chunks: seq<Bytes>, pending: seq<Bytes>, ks: seq<nat>, seen: set<nat>, a: nat, q: nat) {
    && a <= q < |chunks| == |starts| && starts[a]
    && (forall k :: a < k <= q ==> !starts[k])
    && (forall k :: a <= k <= q ==> k in seen)
    && (forall k :: k in ks ==> k < a)
    && pending == chunks[a..q + 1]
  }

  /** What the state must be once position `q` is the last one taken; `intact` when nothing is missing so far. */
  ghost predicate Tracks(starts: seq<bool>, chunks: seq<Bytes>, st: State, ks: seq<nat>, seen: set<nat>, a: nat, q: nat, intact: bool) {
    && q < |chunks| && Keeps(starts, chunks, st.frame, ks, seen)
    && (forall k :: k in ks ==> k <= q)
    && if q == |chunks| - 1 then intact ==> ks == All(|chunks|)
       else (st.continuous ==> Awaits(starts, chunks, st.pending, ks, seen, a, q)) && (intact ==> st.continuous && ks == All(a))
  }

  /** One more partition, or the beginning of the last and its end, joins the frame. */
  lemma KeepMore(starts: seq<bool>, chunks: seq<Bytes>, frame: Bytes, ks: seq<nat>, seen: set<nat>, a: nat, b: nat)
    requires Keeps(starts, chunks, frame, ks, seen) && a < b <= |chunks| && starts[a]
    requires forall k :: k in ks ==> k < a
    requires forall k :: a <= k < b ==> k in seen
    requires b < |chunks| ==> starts[b]
    ensures Keeps(starts, chunks, frame + Flat(chunks[a..b]), ks + Range(a, b), seen)
  {
    var more := ks + Range(a, b);
    MoreIsWhole(starts, ks, a, b);
    FlatConcat(Pick(chunks, ks), chunks[a..b]);
    hide Flat, WholePartitions;
    assert Pick(chunks, more) == Pick(chunks, ks) + chunks[a..b];
    forall k | k in more
      ensures k in seen
    {
      var i :| 0 <= i < |more| && more[i] == k;
      assert i < |ks| ==> ks[i] in ks;
    }
  }

  lemma MoreIsWhole(starts: seq<bool>, ks: seq<nat>, a: nat, b: nat)
    requires WholePartitions(starts, ks) && a < b <= |starts| && starts[a]
    requires forall k :: k in ks ==> k < a
    requires b < |starts| ==> starts[b]
    ensures WholePartitions(starts, ks + Range(a, b))
  {
    var more := ks + Range(a, b);
    forall k: nat
      ensures k in more <==> k in ks || a <= k < b
    {
      InRange(a, b, k);
    }
    forall i, j | 0 <= i < j < |more|
      ensures more[i] < more[j]
    {
      assert i < |ks| ==> ks[i] in ks;
    }
  }

  lemma InRange(a: nat, b: nat, k: nat)
    requires a <= b
    ensures k in Range(a, b) <==> a <= k < b
  {
    assert a <= k < b ==> Range(a, b)[k - a] == k;
  }

  lemma SeenMore(starts: seq<bool>, chunks: seq<Bytes>, frame: Bytes, ks: seq<nat>, seen: set<nat>, r: nat)
    requires Keeps(starts, chunks, frame, ks, seen)
    ensures Keeps(starts, chunks, frame, ks, seen + {r})
  {
    hide WholePartitions, Flat;
  }

  /** A packet that continues the pending partition: nothing is delivered yet. */
  lemma TakeMiddle(starts: seq<bool>, chunks: seq<Bytes>, st: State, ks: seq<nat>, seen: set<nat>, a: nat, r: nat, continuous: bool, intact: bool)
    requires |starts| == |chunks| > r + 1 && !starts[r] && Keeps(starts, chunks, st.frame, ks, seen)
    requires forall k :: k in ks ==> k < r
    requires continuous ==> r > 0 && Awaits(starts, chunks, st.pending, ks, seen, a, r - 1)
    requires intact ==> continuous && ks == All(a)
    ensures Tracks(starts, chunks, Take(st.frame, st.pending, continuous, false, false, chunks[r]), ks, seen + {r}, a, r, intact)
  {
    SeenMore(starts, chunks, st.frame, ks, seen, r);
    hide Keeps;
    assert continuous ==> chunks[a..r] + [chunks[r]] == chunks[a..r + 1];
  }

  /** A packet that starts a partition, and is not the last: what was pending is complete, if there is nothing missing. */
  lemma TakeStart(starts: seq<bool>, chunks: seq<Bytes>, st: State, ks: seq<nat>, seen: set<nat>, a: nat, r: nat, continuous: bool, intact: bool)
    returns (ks': seq<nat>)
    requires |starts| == |chunks| > r + 1 && starts[r] && Keeps(starts, chunks, st.frame, ks, seen)
    requires forall k :: k in ks ==> k < r
    requires continuous ==> r > 0 && Awaits(starts, chunks, st.pending, ks, seen, a, r - 1)
    requires intact ==> if r == 0 then ks == [] && !continuous else continuous && ks == All(a)
    ensures Tracks(starts, chunks, Take(st.frame, st.pending, continuous, true, false, chunks[r]), ks', seen + {r}, r, r, intact)
  {
    SeenMore(starts, chunks, st.frame, ks, seen, r);
    hide Keeps, Flat;
    assert chunks[r..r + 1] == [chunks[r]];
    if continuous {
      KeepMore(starts, chunks, st.frame, ks, seen + {r}, a, r);
      ks' := ks + Range(a, r);
      assert st.frame + Flat(st.pending) + [] == st.frame + Flat(st.pending);
      BelowMore(ks, a, r);
      assert intact ==> ks' == All(r);
    } else {
      ks' := ks;
    }
  }

  lemma BelowMore(ks: seq<nat>, a: nat, b: nat)
    requires a <= b && forall k :: k in ks ==> k < a
    ensures forall k :: k in ks + Range(a, b) ==> k < b
  {
    forall k | k in ks + Range(a, b)
      ensures k < b
    {
      InRange(a, b, k);
    }
  }

  /** The frame with the pending chunks and those behind them. */
  lemma FlatMore(chunks: seq<Bytes>, frame: Bytes, a: nat, r: nat)
    requires a <= r == |chunks| - 1
    ensures frame + Flat(chunks[a..]) == frame + Flat(chunks[a..r]) + chunks[r]
  {
    FlatSnoc(chunks[a..r], chunks[r]);
    assert chunks[a..] == chunks[a..r] + [chunks[r]];
  }

  /** The last packet closes the pending partition, or is one of its own behind it. */
  lemma KeepToEnd(starts: seq<bool>, chunks: seq<Bytes>, frame: Bytes, ks: seq<nat>, seen: set<nat>, a: nat, r: nat)
    requires Keeps(starts, chunks, frame, ks, seen) && a < r == |chunks| - 1 == |starts| - 1 && starts[a]
    requires (forall k :: k in ks ==> k < a) && forall k :: a <= k <= r ==> k in seen
    ensures Keeps(starts, chunks, frame + Flat(chunks[a..r]) + chunks[r], ks + Range(a, r + 1), seen)
  {
    hide Flat, Keeps;
    if starts[r] {
      KeepMore(starts, chunks, frame, ks, seen, a, r);
      BelowMore(ks, a, r);
      KeepMore(starts, chunks, frame + Flat(chunks[a..r]), ks + Range(a, r), seen, r, r + 1);
      assert chunks[r..r + 1] == [chunks[r]];
      FlatOne(chunks[r]);
      assert ks + Range(a, r) + Range(r, r + 1) == ks + Range(a, r + 1);
    } else {
      KeepMore(starts, chunks, frame, ks, seen, a, r + 1);
      assert chunks[a..r + 1] == chunks[a..];
      FlatMore(chunks, frame, a, r);
    }
  }

  /** The last packet, which has the marker. */
  lemma TakeMarked(starts: seq<bool>, chunks: seq<Bytes>, st: State, ks: seq<nat>, seen: set<nat>, a: nat, continuous: bool, intact: bool)
    returns (ks': seq<nat>)
    requires chunks != [] && Keeps(starts, chunks, st.frame, ks, seen)
    requires forall k :: k in ks ==> k < |chunks| - 1
    requires continuous ==> |chunks| > 1 && Awaits(starts, chunks, st.pending, ks, seen, a, |chunks| - 2)
    requires intact ==> if |chunks| == 1 then ks == [] && !continuous && starts[0] else continuous && ks == All(a)
    ensures var r := |chunks| - 1;
            Tracks(starts, chunks, Take(st.frame, st.pending, continuous, starts[r], true, chunks[r]), ks', seen + {r}, a, r, intact)
  {
    var r := |chunks| - 1;
    SeenMore(starts, chunks, st.frame, ks, seen, r);
    hide Keeps, Flat;
    if continuous {
      ks' := ks + Range(a, r + 1);
      KeepToEnd(starts, chunks, st.frame, ks, seen + {r}, a, r);
      BelowMore(ks, a, r + 1);
      assert intact ==> ks' == All(r + 1);
    } else if starts[r] {
      ks' := ks + Range(r, r + 1);
      KeepMore(starts, chunks, st.frame, ks, seen + {r}, r, r + 1);
      BelowMore(ks, r, r + 1);
      assert chunks[r..r + 1] == [chunks[r]];
      FlatOne(chunks[r]);
      assert intact ==> ks' == All(r + 1);
    } else {
      ks' := ks;
    }
  }

  lemma FlatOne(c: Bytes)
    ensures Flat([c]) == c
  {
    FlatSnoc([], c);
    assert [] + [c] == [c] && Flat([]) + c == c;
  }

  /** Any packet, once the sequence check has said whether it follows the one before. */
  lemma TakeAny(starts: seq<bool>, chunks: seq<Bytes>, st: State, ks: seq<nat>, seen: set<nat>, a: nat, r: nat, continuous: bool, intact: bool)
    returns (ks': seq<nat>, a': nat)
    requires r < |chunks| == |starts| && starts[0] && Keeps(starts, chunks, st.frame, ks, seen)
    requires forall k :: k in ks ==> k < r
    requires continuous ==> r > 0 && Awaits(starts, chunks, st.pending, ks, seen, a, r - 1)
    requires intact ==> if r == 0 then ks == [] && !continuous else continuous && ks == All(a)
    ensures Tracks(starts, chunks, Take(st.frame, st.pending, continuous, starts[r], r == |chunks| - 1, chunks[r]), ks', seen + {r}, a', r, intact)
  {
    hide Take, Keeps, Tracks, Awaits;
    a' := a;
    if r == |chunks| - 1 {
      ks' := TakeMarked(starts, chunks, st, ks, seen, a, continuous, intact);
    } else if starts[r] {
      ks' := TakeStart(starts, chunks, st, ks, seen, a, r, continuous, intact);
      a' := r;
    } else {
      ks' := ks;
      TakeMiddle(starts, chunks, st, ks, seen, a, r, continuous, intact);
    }
  }

  /** The payload is a readable descriptor, which says whether it starts a partition, and the data. */
  predicate Shows(vp: Vp, payload: Bytes, start: bool, data: Bytes) {
    && payload != [] && vp.StartsFrame(payload[0]) == start
    && var size := vp.DescriptorSize(payload);
    && size.Size? && size.n <= |payload| && payload[size.n..] == data
  }

  /** The payloads show the chunks, those marked as starting a partition that do, the first one among them. */
  ghost predicate Presents(vp: Vp, ps: seq<Bytes>, starts: seq<bool>, chunks: seq<Bytes>) {
    && |ps| == |starts| == |chunks| && (starts != [] ==> starts[0])
    && forall q :: 0 <= q < |ps| ==> Shows(vp, ps[q], starts[q], chunks[q])
  }

  lemma StepTakes(vp: Vp, st: State, v: Verdict, payload: Bytes, start: bool, marker: bool, data: Bytes)
    requires Shows(vp, payload, start, data) && v != Skip
    ensures Step(vp, st, v, payload, marker) == Take(st.frame, st.pending, st.continuous && v == Next, start, marker, data)
  {
    hide Vp.DescriptorSize, Vp.StartsFrame, Take;
  }

  /** Nothing is missing among the first `i` packets. */
  predicate Intact(at: seq<nat>, i: nat)
    requires i <= |at|
  {
    forall k :: 0 <= k < i ==> at[k] == k
  }

  lemma IntactPosition(n: nat, at: seq<nat>, i: nat)
    requires Positions(n, at) && 0 < i <= |at|
    ensures Intact(at, i) ==> at[i - 1] == i - 1
    ensures i > 1 ==> Intact(at, i) == (Intact(at, i - 1) && at[i - 1] == at[i - 2] + 1)
    ensures i == 1 ==> Intact(at, i) == (at[0] == 0)
  {
  }

  /** The buffer's contents: some of the payloads that present the chunks, the last one marked. */
  ghost predicate Holds(vp: Vp, ps: seq<Bytes>, starts: seq<bool>, chunks: seq<Bytes>, at: seq<nat>, payloads: seq<Bytes>, markers: seq<bool>) {
    && Presents(vp, ps, starts, chunks) && Positions(|chunks|, at)
    && |payloads| == |markers| == |at|
    && (forall k :: 0 <= k < |at| ==> payloads[k] == ps[at[k]])
    && (forall k :: 0 <= k < |at| ==> markers[k] == (at[k] == |chunks| - 1))
  }

  /** The positions of the first `i` packets. */
  ghost function Seen(at: seq<nat>, i: nat): set<nat>
    requires i <= |at|
  {
    if i == 0 then {} else Seen(at, i - 1) + {at[i - 1]}
  }

  lemma {:induction false} SeenIsThere(at: seq<nat>, i: nat, k: nat)
    requires i <= |at| && k in Seen(at, i)
    ensures k in at
  {
    if i > 0 && k != at[i - 1] {
      SeenIsThere(at, i - 1, k);
    }
  }

  lemma NothingKept(starts: seq<bool>, chunks: seq<Bytes>)
    requires |starts| == |chunks|
    ensures Keeps(starts, chunks, [], [], {})
  {
    assert Pick(chunks, []) == [];
  }

  lemma TracksMeans(starts: seq<bool>, chunks: seq<Bytes>, st: State, ks: seq<nat>, seen: set<nat>, a: nat, q: nat, intact: bool)
    requires Tracks(starts, chunks, st, ks, seen, a, q, intact)
    ensures q < |chunks| && Keeps(starts, chunks, st.frame, ks, seen) && forall k :: k in ks ==> k <= q
    ensures q < |chunks| - 1 && st.continuous ==> Awaits(starts, chunks, st.pending, ks, seen, a, q)
    ensures q < |chunks| - 1 && intact ==> st.continuous && ks == All(a)
    ensures q == |chunks| - 1 && intact ==> ks == All(|chunks|)
  {
    hide Keeps, Awaits;
  }

  /** While the sequence check lets packets through. */
  lemma {:induction false} TracksWhileLive(vp: Vp, ps: seq<Bytes>, starts: seq<bool>, chunks: seq<Bytes>, first: nat, at: seq<nat>,
                                           payloads: seq<Bytes>, markers: seq<bool>, i: nat)
    returns (ks: seq<nat>, a: nat)
    requires Holds(vp, ps, starts, chunks, at, payloads, markers)
    requires 0 < i <= Live(Numbers(first, at), 1)
    ensures Tracks(starts, chunks, After(vp, Wire(Numbers(first, at)), payloads, markers, i), ks, Seen(at, i), a, at[i - 1], Intact(at, i))
    decreases i
  {
    hide Step, Take, Tracks, VerdictOf, Intact, Live, Wire, Shows, Keeps, Awaits;
    var r := at[i - 1];
    VerdictAt(|chunks|, first, at, i - 1);
    IntactPosition(|chunks|, at, i);
    var seqs := Wire(Numbers(first, at));
    var v, st := VerdictOf(seqs, i - 1), After(vp, seqs, payloads, markers, i - 1);
    StepTakes(vp, st, v, payloads[i - 1], starts[r], r == |chunks| - 1, chunks[r]);
    if i == 1 {
      NothingKept(starts, chunks);
      ks, a := TakeAny(starts, chunks, st, [], {}, 0, r, false, r == 0);
    } else {
      ks, a := TracksWhileLive(vp, ps, starts, chunks, first, at, payloads, markers, i - 1);
      TracksMeans(starts, chunks, st, ks, Seen(at, i - 1), a, at[i - 2], Intact(at, i - 1));
      ks, a := TakeAny(starts, chunks, st, ks, Seen(at, i - 1), a, r, st.continuous && v == Next, Intact(at, i));
    }
  }

  lemma SkipKeeps(vp: Vp, st: State, payload: Bytes, marker: bool)
    ensures Step(vp, st, Skip, payload, marker) == st
  {
  }

  lemma {:induction false} NothingAfterwards(vp: Vp, first: nat, at: seq<nat>, n: nat, payloads: seq<Bytes>, markers: seq<bool>, i: nat)
    requires Positions(n, at) && |payloads| == |markers| == |at|
    requires Live(Numbers(first, at), 1) <= i <= |at|
    ensures var seqs := Wire(Numbers(first, at));
            After(vp, seqs, payloads, markers, i) ==
            After(vp, seqs, payloads, markers, Live(Numbers(first, at), 1))
    decreases i
  {
    hide Step, VerdictOf, Live, Wire;
    if i > Live(Numbers(first, at), 1) {
      NothingAfterwards(vp, first, at, n, payloads, markers, i - 1);
      NumbersReceived(n, first, at);
      CheckFollowsOrder(Numbers(first, at), i - 1);
      SkipKeeps(vp, After(vp, Wire(Numbers(first, at)), payloads, markers, i - 1), payloads[i - 1], markers[i - 1]);
    }
  }

  lemma AllAreLive(n: nat, first: nat, at: seq<nat>)
    requires Positions(n, at) && |at| == n
    ensures Live(Numbers(first, at), 1) == |at| && Intact(at, |at|) && at[|at| - 1] == n - 1
  {
    AsManyIsAll(n, at);
    assert forall k :: 0 < k < |at| ==> !BadWrap(Numbers(first, at), k);
  }

  /** What the final state holds: whole partitions, and all of them when every packet is there. */
  lemma FinallyKept(vp: Vp, ps: seq<Bytes>, starts: seq<bool>, chunks: seq<Bytes>, first: nat, at: seq<nat>,
                    payloads: seq<Bytes>, markers: seq<bool>)
    returns (ks: seq<nat>)
    requires Holds(vp, ps, starts, chunks, at, payloads, markers)
    ensures Keeps(starts, chunks, After(vp, Wire(Numbers(first, at)), payloads, markers, |at|).frame, ks, set k | k in at)
    ensures |at| == |chunks| ==> ks == All(|chunks|)
  {
    hide After, Flat, Presents, Intact, Tracks, Numbers, WholePartitions;
    var n := Live(Numbers(first, at), 1);
    var a;
    ks, a := TracksWhileLive(vp, ps, starts, chunks, first, at, payloads, markers, n);
    var st := After(vp, Wire(Numbers(first, at)), payloads, markers, n);
    TracksMeans(starts, chunks, st, ks, Seen(at, n), a, at[n - 1], Intact(at, n));
    NothingAfterwards(vp, first, at, |chunks|, payloads, markers, |at|);
    forall k | k in ks
      ensures k in at
    {
      SeenIsThere(at, n, k);
    }
    if |at| == |chunks| {
      AllAreLive(|chunks|, first, at);
    }
  }

  /**
    Partitions survive whole: of any part of a frame's packets, whatever partitions they start,
    the depacketizer delivers the bytes of whole partitions that are there, in order, and all of
    the frame when all of it is there.
   */
  lemma PartitionsSurvive(vp: Vp, ps: seq<Bytes>, starts: seq<bool>, chunks: seq<Bytes>, first: nat, at: seq<nat>, packets: seq<Bytes>)
    returns (ks: seq<nat>)
    requires Presents(vp, ps, starts, chunks) && Positions(|ps|, at) && Carries(packets, ps, first, at)
    ensures WholePartitions(starts, ks) && forall k :: k in ks ==> k in at
    ensures |at| == |ps| ==> ks == All(|ps|)
    ensures Delivers(Reassembled(vp, packets), Flat(Pick(chunks, ks)))
  {
    hide After, Shows, Payload, SeqNumber, Marker, Positions, Flat, WholePartitions;
    assert packets != [] by { SomeThere(|ps|, at); }
    assert Seqs(packets) == Wire(Numbers(first, at));
    ks := FinallyKept(vp, ps, starts, chunks, first, at, PayloadsOf(packets), MarkersOf(packets));
  }

  /** An empty frame is none. */
  predicate Delivers(r: Outcome, bytes: Bytes) {
    r == if bytes == [] then NoFrame else Frame(bytes)
  }

  lemma SomeThere(n: nat, at: seq<nat>)
    requires Positions(n, at)
    ensures at != []
  {
  }

  // ---------------------------------------------------------------- all or nothing

  /** The only partition starts with the first packet. */
  function OneStart(n: nat): (r: seq<bool>)
    ensures |r| == n
  {
    seq(n, i => i == 0)
  }

  lemma {:induction false} WithOneAll(n: nat, ks: seq<nat>, k: nat, q: nat)
    requires WholePartitions(OneStart(n), ks) && k in ks && k < n && q < n
    ensures q in ks
    decreases if q < k then k - q else q - k
  {
    if q < k {
      assert k - 1 in ks;
      WithOneAll(n, ks, k - 1, q);
    } else if q > k {
      assert k + 1 in ks by { assert !OneStart(n)[k + 1]; }
      WithOneAll(n, ks, k + 1, q);
    }
  }

  lemma AllThere(n: nat, at: seq<nat>)
    requires Positions(n, at) && forall k :: 0 <= k < n ==> k in at
    ensures |at| == n
  {
    Spread(n, at, 0);
    assert n - 1 in at;
    var j :| 0 <= j < |at| && at[j] == n - 1;
    Filled(n, at, j);
  }

  lemma {:induction false} Filled(n: nat, at: seq<nat>, i: nat)
    requires Positions(n, at) && (forall k :: 0 <= k < n ==> k in at) && i < |at|
    ensures at[i] == i
    decreases i
  {
    SpreadLow(n, at, i);
    assert i < n by { Spread(n, at, i); }
    assert i in at;
    var j :| 0 <= j < |at| && at[j] == i;
    if j < i {
      Filled(n, at, j);
    }
  }

  /** Of a frame with one partition, all packets give its bytes, and fewer give nothing. */
  lemma PresentedAllOrNothing(vp: Vp, ps: seq<Bytes>, chunks: seq<Bytes>, first: nat, at: seq<nat>, packets: seq<Bytes>)
    requires Presents(vp, ps, OneStart(|ps|), chunks) && Positions(|ps|, at) && Carries(packets, ps, first, at)
    ensures Delivers(Reassembled(vp, packets), if |at| == |ps| then Flat(chunks) else [])
  {
    var n := |ps|;
    var ks := PartitionsSurvive(vp, ps, OneStart(n), chunks, first, at, packets);
    hide Presents, Positions, Carries, Flat, Reassembled, Delivers;
    if |at| == n {
      assert Pick(chunks, ks) == chunks;
    } else {
      if ks != [] {
        forall q | 0 <= q < n
          ensures q in at
        {
          assert ks[0] in ks;
          WithOneAll(n, ks, ks[0], q);
        }
        AllThere(n, at);
      }
      assert Pick(chunks, ks) == [];
      FlatNone();
    }
  }

  /** The packetizer's fragments present the chunks of the frame. */
  lemma FragmentsPresent(vp: Vp, frame: Bytes, max: nat)
    requires vp.Sends(frame, max)
    ensures var ps, chunks := Fragments(vp, frame, max), Chunks(frame, max - 1, 0, []);
            Presents(vp, ps, OneStart(|ps|), chunks) && Flat(chunks) == frame
  {
    hide Vp.Descriptor, Flat, FragmentsFrom, Vp.DescriptorSize, Vp.StartsFrame;
    assert Flat([]) == frame[..0] by { FlatNone(); }
    var chunks := Chunks(frame, max - 1, 0, []);
    ChunksAreTheFrame(frame, max - 1, 0, []);
    FragmentsAreChunks(vp, frame, max - 1, 0, [], |chunks|);
    assert Described(vp, frame, [], |chunks|) == [];
    var ps := Fragments(vp, frame, max);
    assert ps == Described(vp, frame, chunks, |chunks|);
    forall q | 0 <= q < |ps|
      ensures Shows(vp, ps[q], q == 0, chunks[q])
    {
      DescriptorReads(vp, frame, q == 0, q == |ps| - 1, chunks[q]);
      assert ps[q][1..] == chunks[q];
    }
  }

  /**
    All or nothing: of any part of a frame's packets, starting at any sequence number, the
    depacketizer delivers exactly the frame when the part is the whole, and nothing otherwise.
   */
  lemma AllOrNothing(vp: Vp, frame: Bytes, max: nat, first: nat, at: seq<nat>, packets: seq<Bytes>)
    requires vp.Sends(frame, max)
    requires var payloads := Fragments(vp, frame, max);
             Positions(|payloads|, at) && Carries(packets, payloads, first, at)
    ensures Reassembled(vp, packets) ==
            if |at| == |Fragments(vp, frame, max)| then Frame(frame) else NoFrame
  {
    hide Presents, Fragments, Positions, Carries, Flat, Reassembled;
    FragmentsPresent(vp, frame, max);
    PresentedAllOrNothing(vp, Fragments(vp, frame, max), Chunks(frame, max - 1, 0, []), first, at, packets);
  }

  /** A packet without payload, or without a descriptor that can be read, adds nothing and interrupts nothing. */
  lemma PassedOver(vp: Vp, st: State, payload: Bytes, marker: bool)
    requires payload == [] || vp.DescriptorSize(payload) == Truncated
    ensures Step(vp, st, Next, payload, marker) == st
  {
    hide Vp.DescriptorSize;
  }

  // ---------------------------------------------------------------- other senders

  /** Any descriptors, the first one marked as a start. */
  ghost predicate Describes(vp: Vp, ds: seq<Descriptor>, chunks: seq<Bytes>) {
    && |ds| == |chunks| && (ds != [] ==> ds[0].Starts())
    && forall q :: 0 <= q < |ds| ==> ds[q].Valid(vp)
  }

  function StartsOf(ds: seq<Descriptor>): (r: seq<bool>)
    ensures |r| == |ds|
  {
    seq(|ds|, q requires 0 <= q < |ds| => ds[q].Starts())
  }

  ghost function Sent(vp: Vp, ds: seq<Descriptor>, chunks: seq<Bytes>): (r: seq<Bytes>)
    requires Describes(vp, ds, chunks)
    ensures |r| == |chunks|
  {
    seq(|ds|, q requires 0 <= q < |ds| => ds[q].Bytes(vp) + chunks[q])
  }

  lemma SentPresents(vp: Vp, ds: seq<Descriptor>, chunks: seq<Bytes>)
    requires Describes(vp, ds, chunks)
    ensures Presents(vp, Sent(vp, ds, chunks), StartsOf(ds), chunks)
  {
    hide Vp.DescriptorSize, Vp.StartsFrame, Descriptor.Bytes, Descriptor.Valid;
    var ps := Sent(vp, ds, chunks);
    forall q | 0 <= q < |ps|
      ensures Shows(vp, ps[q], StartsOf(ds)[q], chunks[q])
    {
      DescriptorIsRead(vp, ds[q], chunks[q]);
      assert ps[q] == ds[q].Bytes(vp) + chunks[q];
    }
  }

  /**
    From any sender: the parts of a frame behind any descriptors of the two RFCs.  Whole
    partitions survive; all packets give the frame; and when only the first is a start, fewer give
    nothing.
   */
  lemma AnySenderSurvives(vp: Vp, ds: seq<Descriptor>, chunks: seq<Bytes>, first: nat, at: seq<nat>, packets: seq<Bytes>)
    returns (ks: seq<nat>)
    requires Describes(vp, ds, chunks) && Positions(|ds|, at) && Carries(packets, Sent(vp, ds, chunks), first, at)
    ensures WholePartitions(StartsOf(ds), ks) && forall k :: k in ks ==> k in at
    ensures Delivers(Reassembled(vp, packets), Flat(Pick(chunks, ks)))
    ensures |at| == |ds| ==> Delivers(Reassembled(vp, packets), Flat(chunks))
    ensures |at| < |ds| && StartsOf(ds) == OneStart(|ds|) ==> Reassembled(vp, packets) == NoFrame
  {
    hide Presents, Positions, Carries, Flat, Reassembled, WholePartitions, Describes, StartsOf;
    var ps := Sent(vp, ds, chunks);
    SentPresents(vp, ds, chunks);
    ks := PartitionsSurvive(vp, ps, StartsOf(ds), chunks, first, at, packets);
    assert |at| == |ds| ==> Pick(chunks, ks) == chunks;
    if StartsOf(ds) == OneStart(|ds|) {
      PresentedAllOrNothing(vp, ps, chunks, first, at, packets);
    }
  }

  lemma FlatNone()
    ensures Flat([]) == []
  {
  }

  lemma {:induction false} FragmentsFromFit(vp: Vp, frame: Bytes, room: nat, index: nat, acc: seq<Bytes>)
    requires room > 0 && frame != [] && index <= |frame|
    requires forall i :: 0 <= i < |acc| ==> |acc[i]| <= room + 1
    ensures var ps := FragmentsFrom(vp, frame, room, index, acc);
            forall i :: 0 <= i < |ps| ==> |ps[i]| <= room + 1
    decreases |frame| - index
  {
    hide Vp.Descriptor;
    if index < |frame| {
      var e := if index + room <= |frame| then index + room else |frame|;
      var next := acc + [[vp.Descriptor(frame, index == 0, e == |frame|)] + frame[index..e]];
      FragmentsFromFit(vp, frame, room, e, next);
      assert FragmentsFrom(vp, frame, room, index, acc) == FragmentsFrom(vp, frame, room, e, next);
    }
  }

  /**
    The payloads of a frame: none exceeds the maximum, only the first is marked as the start and,
    for VP9, only the last as the end, and behind the descriptors they make up the frame.
   */
  lemma FragmentsObey(vp: Vp, frame: Bytes, max: nat)
    requires vp.Sends(frame, max)
    ensures var ps := Fragments(vp, frame, max);
            && ps != []
            && (forall i :: 0 <= i < |ps| ==> 0 < |ps[i]| <= max)
            && (forall i :: 0 <= i < |ps| ==> vp.StartsFrame(ps[i][0]) == (i == 0))
            && (vp.VP9? ==> forall i :: 0 <= i < |ps| ==> HasBit(ps[i][0], 4) == (i == |ps| - 1))
            && Flat(Bodies(ps)) == frame
  {
    hide Vp.Descriptor, Flat, FragmentsFrom, Chunks, Vp.StartsFrame, HasBit;
    assert Flat([]) == frame[..0] by { FlatNone(); }
    var chunks := Chunks(frame, max - 1, 0, []);
    ChunksAreTheFrame(frame, max - 1, 0, []);
    FragmentsAreChunks(vp, frame, max - 1, 0, [], |chunks|);
    assert Described(vp, frame, [], |chunks|) == [];
    FragmentsFromFit(vp, frame, max - 1, 0, []);
    var ps := Fragments(vp, frame, max);
    assert ps == Described(vp, frame, chunks, |chunks|);
    forall i | 0 <= i < |ps|
      ensures ps[i] == [vp.Descriptor(frame, i == 0, i == |ps| - 1)] + chunks[i]
      ensures vp.StartsFrame(ps[i][0]) == (i == 0) && (vp.VP9? ==> HasBit(ps[i][0], 4) == (i == |ps| - 1))
    {
      DescriptorReads(vp, frame, i == 0, i == |ps| - 1, chunks[i]);
    }
    assert Bodies(ps) == chunks;
  }

  /** What is behind the one-byte descriptors. */
  function Bodies(ps: seq<Bytes>): seq<Bytes> {
    seq(|ps|, i requires 0 <= i < |ps| => if ps[i] == [] then [] else ps[i][1..])
  }
}
