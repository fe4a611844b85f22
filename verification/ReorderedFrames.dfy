/**
  Frames whose packets arrive in any order, with repetitions and losses, come out of the
  reordering buffer in the order of their sequence numbers (src/rtpdepacketizer.cpp).
 */
module ReorderedFrames {
  import opened Bits
  import opened RtpPacket
  import opened ReorderBuffer

  /** How far a packet is after the frame's first number, across the wraparound. */
  function Offset(first: U16, p: Bytes): U16
    requires |p| >= 12
  {
    (SeqNumber(p) - first) % 65536
  }

  /** The set's order, within less than half the number space, is the order of the offsets. */
  lemma LessIsOffset(first: U16, a: Bytes, b: Bytes)
    requires |a| >= 12 && |b| >= 12 && Offset(first, a) < 32768 && Offset(first, b) < 32768
    ensures Less(a, b) <==> Offset(first, a) < Offset(first, b)
  {
    var x: int, y: int := Offset(first, a), Offset(first, b);
    assert (SeqNumber(b) - SeqNumber(a)) % 65536 == (y - x) % 65536;
  }

  ghost predicate Near(first: U16, ps: seq<Bytes>) {
    Headers(ps) && forall p :: p in ps ==> Offset(first, p) < 32768
  }

  ghost predicate Sorted(first: U16, ps: seq<Bytes>) {
    Near(first, ps) && forall i, j :: 0 <= i < j < |ps| ==> Offset(first, ps[i]) < Offset(first, ps[j])
  }

  /** A frame: one timestamp, ascending numbers over less than half the space, the marker on its last packet. */
  ghost predicate IsFrame(first: U16, f: seq<Bytes>) {
    && f != [] && Sorted(first, f) && OneTimestamp(f)
    && (forall p :: p in f ==> Complete(p))
    && (forall i :: 0 <= i < |f| ==> (Marker(f[i]) <==> i == |f| - 1))
  }

  // ---------------------------------------------------------------- insertion sorts

  lemma {:induction false} InsertSorts(first: U16, b: seq<Bytes>, p: Bytes)
    requires Sorted(first, b) && |p| >= 12 && Offset(first, p) < 32768
    requires forall q :: q in b && q != p ==> Offset(first, q) != Offset(first, p)
    ensures Sorted(first, Insert(b, p))
    ensures forall q :: q in Insert(b, p) <==> q in b || q == p
    decreases |b|
  {
    hide Offset, Less, Sorted, Insert;
    if b == [] {
      InsertIntoNone(first, p);
    } else {
      var t := b[1..];
      SortedHead(first, b);
      InsertUnfolds(b, p);
      LessIsOffset(first, b[0], p);
      LessIsOffset(first, p, b[0]);
      if Less(b[0], p) {
        InsertSorts(first, t, p);
        SortedCons(first, b[0], Insert(t, p));
      } else if Less(p, b[0]) {
        SortedCons(first, p, b);
      }
    }
  }

  lemma InsertIntoNone(first: U16, p: Bytes)
    requires |p| >= 12 && Offset(first, p) < 32768
    ensures Insert([], p) == [p] && Sorted(first, Insert([], p))
  {
  }

  lemma SortedHead(first: U16, b: seq<Bytes>)
    requires Sorted(first, b) && b != []
    ensures b == [b[0]] + b[1..] && Headers(b) && |b[0]| >= 12 && Offset(first, b[0]) < 32768
    ensures Sorted(first, b[1..]) && forall q :: q in b[1..] ==> |q| >= 12 && Offset(first, b[0]) < Offset(first, q)
  {
    hide Offset;
    assert b[0] in b;
  }

  lemma SortedCons(first: U16, h: Bytes, t: seq<Bytes>)
    requires Sorted(first, t) && |h| >= 12 && Offset(first, h) < 32768
    requires forall q :: q in t ==> |q| >= 12 && Offset(first, h) < Offset(first, q)
    ensures Sorted(first, [h] + t)
  {
  }

  /** A sorted list is determined by what it holds. */
  lemma {:induction false} SortedUnique(first: U16, a: seq<Bytes>, b: seq<Bytes>)
    requires Sorted(first, a) && Sorted(first, b) && forall p :: p in a <==> p in b
    ensures a == b
    decreases |a|
  {
    if a == [] {
      if |b| > 0 {
        HeadIsIn(b);
      }
    } else {
      hide Offset;
      assert a[0] in b && b[0] in a by {
        assert a[0] in a;
        assert b[0] in b;
      }
      var i :| 0 <= i < |a| && a[i] == b[0];
      var j :| 0 <= j < |b| && b[j] == a[0];
      assert i == 0 && j == 0;
      forall p
        ensures p in a[1..] <==> p in b[1..]
      {
        InTail(first, a, p);
        InTail(first, b, p);
      }
      SortedUnique(first, a[1..], b[1..]);
      assert a == [a[0]] + a[1..] && b == [b[0]] + b[1..];
    }
  }

  lemma HeadIsIn(b: seq<Bytes>)
    requires |b| > 0
    ensures b[0] in b
  {
  }

  lemma InTail(first: U16, a: seq<Bytes>, p: Bytes)
    requires Sorted(first, a) && a != []
    ensures p in a[1..] <==> p in a && p != a[0]
  {
    if p in a[1..] {
      var i :| 0 <= i < |a[1..]| && a[1..][i] == p;
      assert a[i + 1] == p && Offset(first, a[0]) < Offset(first, a[i + 1]);
    }
    if p in a && p != a[0] {
      var i :| 0 <= i < |a| && a[i] == p;
      assert a[1..][i - 1] == p;
    }
  }

  // ---------------------------------------------------------------- one frame

  function Messages(ps: seq<Bytes>): (ms: seq<Message>)
    ensures |ms| == |ps| && forall i :: 0 <= i < |ps| ==> ms[i] == Rtp(ps[i])
  {
    seq(|ps|, i requires 0 <= i < |ps| => Rtp(ps[i]))
  }

  /** The packets of a frame that have arrived, in the frame's order. */
  function Present(f: seq<Bytes>, arrivals: seq<Bytes>): (r: seq<Bytes>)
    ensures forall p :: p in r <==> p in f && p in arrivals
  {
    if f == [] then []
    else Present(f[..|f| - 1], arrivals) + (if f[|f| - 1] in arrivals then [f[|f| - 1]] else [])
  }

  lemma {:induction false} PresentSorted(first: U16, f: seq<Bytes>, arrivals: seq<Bytes>)
    requires Sorted(first, f)
    ensures Sorted(first, Present(f, arrivals))
  {
    if f != [] {
      var n := |f| - 1;
      SortedFront(first, f);
      hide Sorted, Offset;
      PresentSorted(first, f[..n], arrivals);
      if f[n] in arrivals {
        SortedSnoc(first, Present(f[..n], arrivals), f[n]);
      }
    }
  }

  lemma SortedFront(first: U16, f: seq<Bytes>)
    requires Sorted(first, f) && f != []
    ensures var n := |f| - 1;
            && Sorted(first, f[..n]) && |f[n]| >= 12 && Offset(first, f[n]) < 32768
            && forall p :: p in f[..n] ==> |p| >= 12 && Offset(first, p) < Offset(first, f[n])
  {
    hide Offset;
    assert f[|f| - 1] in f;
  }

  lemma SortedSnoc(first: U16, t: seq<Bytes>, p: Bytes)
    requires Sorted(first, t) && |p| >= 12 && Offset(first, p) < 32768
    requires forall q :: q in t ==> |q| >= 12 && Offset(first, q) < Offset(first, p)
    ensures Sorted(first, t + [p])
  {
    hide Offset;
  }

  lemma {:induction false} AllPresent(f: seq<Bytes>, arrivals: seq<Bytes>)
    requires forall p :: p in f ==> p in arrivals
    ensures Present(f, arrivals) == f
  {
    if f != [] {
      var n := |f| - 1;
      AllPresent(f[..n], arrivals);
      assert f[n] in arrivals;
    }
  }

  /** Two packets of a frame with the same offset are the same. */
  lemma OffsetsTell(first: U16, f: seq<Bytes>, p: Bytes, q: Bytes)
    requires Sorted(first, f) && p in f && q in f && p != q
    ensures Offset(first, p) != Offset(first, q)
  {
    hide Offset;
    var i :| 0 <= i < |f| && f[i] == p;
    var j :| 0 <= j < |f| && f[j] == q;
  }

  lemma OneMore(arrivals: seq<Bytes>, m: Bytes)
    requires Run([], Messages(arrivals)).1 == []
    ensures Run([], Messages(arrivals + [m])) == Step(Run([], Messages(arrivals)).0, Rtp(m))
  {
    hide Step;
    var ms := Messages(arrivals + [m]);
    assert ms[..|arrivals|] == Messages(arrivals) && ms[|arrivals|] == Rtp(m);
    var step := Step(Run([], Messages(arrivals)).0, Rtp(m));
    assert [] + step.1 == step.1;
  }

  /** Packets of the frame other than the last wait in order. */
  lemma {:induction false} Gathered(first: U16, f: seq<Bytes>, arrivals: seq<Bytes>)
    requires IsFrame(first, f) && forall p :: p in arrivals ==> p in f[..|f| - 1]
    ensures Run([], Messages(arrivals)).1 == []
    ensures Sorted(first, Run([], Messages(arrivals)).0)
    ensures forall p :: p in Run([], Messages(arrivals)).0 <==> p in arrivals
    decreases |arrivals|
  {
    if arrivals != [] {
      hide Sorted, IsFrame, Step, Run, Insert;
      var n := |arrivals| - 1;
      var before, p := arrivals[..n], arrivals[n];
      assert arrivals == before + [p];
      assert p in arrivals && forall q :: q in before ==> q in arrivals;
      Gathered(first, f, before);
      OneMore(before, p);
      InFront(f);
      FrameStep(first, f, Run([], Messages(before)).0, p);
    }
  }

  lemma SameStamp(first: U16, f: seq<Bytes>, b: seq<Bytes>, p: Bytes)
    requires IsFrame(first, f) && p in f && forall q :: q in b ==> q in f
    ensures Headers(b) && Complete(p) && !Flushes(b, p)
  {
    hide Offset, Timestamp, FixedSize, Marker;
    assert b != [] ==> b[0] in b;
  }

  lemma MarkerIsLast(first: U16, f: seq<Bytes>, p: Bytes)
    requires IsFrame(first, f) && p in f
    ensures |p| >= 12
    ensures p in f[..|f| - 1] ==> !Marker(p)
    ensures p == f[|f| - 1] ==> Marker(p)
  {
    hide Marker;
    if p in f[..|f| - 1] {
      var j :| 0 <= j < |f| - 1 && f[j] == p;
      assert !Marker(f[j]);
    }
  }

  /** A packet of the frame is inserted, without a flush. */
  lemma FrameStep(first: U16, f: seq<Bytes>, b: seq<Bytes>, p: Bytes)
    requires IsFrame(first, f) && p in f && Sorted(first, b) && forall q :: q in b ==> q in f
    ensures Headers(b) && |p| >= 12
    ensures Sorted(first, Insert(b, p)) && forall q :: q in Insert(b, p) <==> q in b || q == p
    ensures p in f[..|f| - 1] ==> Step(b, Rtp(p)) == (Insert(b, p), [])
    ensures p == f[|f| - 1] ==> Step(b, Rtp(p)) == ([], [Reassemble(Insert(b, p))])
  {
    assert Sorted(first, f) && Offset(first, p) < 32768;
    hide Offset, Timestamp, FixedSize, Marker, IsFrame, Sorted, Insert, Flushes;
    SameStamp(first, f, b, p);
    forall q | q in b && q != p
      ensures Offset(first, q) != Offset(first, p)
    {
      OffsetsTell(first, f, p, q);
    }
    InsertSorts(first, b, p);
    MarkerIsLast(first, f, p);
    assert [] + [Reassemble(Insert(b, p))] == [Reassemble(Insert(b, p))];
  }

  lemma InFront(f: seq<Bytes>)
    requires f != []
    ensures forall p :: p in f[..|f| - 1] ==> p in f
    ensures f[|f| - 1] in f
  {
  }

  /**
    For one frame spanning less than 32768 numbers, whatever order its packets come in and
    however often, the marker packet last: one reassembly, of those that arrived, in order.
   */
  lemma AnyOrder(first: U16, f: seq<Bytes>, arrivals: seq<Bytes>)
    requires IsFrame(first, f) && forall p :: p in arrivals ==> p in f[..|f| - 1]
    ensures var all := arrivals + [f[|f| - 1]];
            Run([], Messages(all)) == ([], [Reassemble(Present(f, all))])
  {
    assert Sorted(first, f);
    hide Step, Insert, Sorted, Present, IsFrame, Run;
    var m := f[|f| - 1];
    var all := arrivals + [m];
    Gathered(first, f, arrivals);
    var b := Run([], Messages(arrivals)).0;
    InFront(f);
    FrameStep(first, f, b, m);
    OneMore(arrivals, m);
    PresentSorted(first, f, all);
    SortedUnique(first, Insert(b, m), Present(f, all));
  }

  /** With every packet there at least once, the reassembler sees what in-order arrival shows it. */
  lemma SameAsInOrder(first: U16, f: seq<Bytes>, arrivals: seq<Bytes>)
    requires IsFrame(first, f)
    requires forall p :: p in arrivals <==> p in f[..|f| - 1]
    ensures Run([], Messages(arrivals + [f[|f| - 1]])) == ([], [Reassemble(f)])
    ensures Run([], Messages(f)) == ([], [Reassemble(f)])
  {
    var n := |f| - 1;
    assert f == f[..n] + [f[n]];
    AnyOrder(first, f, arrivals);
    AnyOrder(first, f, f[..n]);
    AllPresent(f, arrivals + [f[n]]);
    AllPresent(f, f);
  }

  // ---------------------------------------------------------------- a stream of frames

  /** A frame, the order in which its packets arrive, and whether the marked one is among them. */
  datatype Delivery = Delivery(first: U16, frame: seq<Bytes>, arrivals: seq<Bytes>, marked: bool)

  /** Something arrives, and the marked packet comes last if it comes. */
  ghost predicate Valid(d: Delivery) {
    && IsFrame(d.first, d.frame)
    && (forall p :: p in d.arrivals ==> p in d.frame[..|d.frame| - 1])
    && (d.marked || d.arrivals != [])
  }

  function Whole(d: Delivery): seq<Bytes>
    requires Valid(d)
  {
    d.arrivals + (if d.marked then [d.frame[|d.frame| - 1]] else [])
  }

  /** What has arrived of the frame, in its order. */
  function Part(d: Delivery): seq<Bytes>
    requires Valid(d)
  {
    Present(d.frame, Whole(d))
  }

  /** Deliveries of frames of which no two neighbours have the same timestamp. */
  ghost predicate Streamed(ds: seq<Delivery>) {
    && (forall i :: 0 <= i < |ds| ==> Valid(ds[i]))
    && forall i :: 0 < i < |ds| ==> Follows(ds[i - 1], ds[i])
  }

  ghost predicate Follows(d: Delivery, e: Delivery)
    requires Valid(d) && Valid(e)
  {
    forall p, q :: p in d.frame && q in e.frame ==> Timestamp(p) != Timestamp(q)
  }

  function Stream(ds: seq<Delivery>): seq<Message>
    requires forall i :: 0 <= i < |ds| ==> Valid(ds[i])
  {
    if ds == [] then [] else Stream(ds[..|ds| - 1]) + Messages(Whole(ds[|ds| - 1]))
  }

  /** One reassembly for each frame. */
  function Frames(ds: seq<Delivery>): seq<Action>
    requires forall i :: 0 <= i < |ds| ==> Valid(ds[i])
  {
    if ds == [] then [] else Frames(ds[..|ds| - 1]) + [Reassemble(Part(ds[|ds| - 1]))]
  }

  /** What still waits at the end: the last frame, if its marker was lost. */
  function Left(ds: seq<Delivery>): seq<Bytes>
    requires forall i :: 0 <= i < |ds| ==> Valid(ds[i])
  {
    if ds == [] || ds[|ds| - 1].marked then [] else Part(ds[|ds| - 1])
  }

  /** The frames that have been ended, by their marker or by the next timestamp. */
  function Ended(ds: seq<Delivery>): seq<Action>
    requires forall i :: 0 <= i < |ds| ==> Valid(ds[i])
  {
    if ds == [] || ds[|ds| - 1].marked then Frames(ds) else Frames(ds[..|ds| - 1])
  }

  lemma {:induction false} RunMore(b: seq<Bytes>, ms: seq<Message>, more: seq<Message>)
    requires Headers(b)
    ensures Run(b, ms + more) == (Run(Run(b, ms).0, more).0, Run(b, ms).1 + Run(Run(b, ms).0, more).1)
    decreases |more|
  {
    hide Step, Headers;
    if more == [] {
      assert ms + more == ms;
      assert Run(b, ms).1 + [] == Run(b, ms).1;
    } else {
      var n := |more| - 1;
      RunMore(b, ms, more[..n]);
      assert (ms + more)[..|ms + more| - 1] == ms + more[..n] && (ms + more)[|ms + more| - 1] == more[n];
      var first := Run(b, ms);
      var middle := Run(first.0, more[..n]);
      var last := Step(middle.0, more[n]);
      assert first.1 + middle.1 + last.1 == first.1 + (middle.1 + last.1);
    }
  }

  function Flush(b: seq<Bytes>): seq<Action> {
    if b == [] then [] else [Reassemble(b)]
  }

  /** The first packet of another timestamp ends what waits; after that the buffer is as if it had been empty. */
  lemma FlushFirst(b: seq<Bytes>, ps: seq<Bytes>)
    requires Headers(b) && ps != [] && Complete(ps[0]) && (b != [] ==> Timestamp(b[0]) != Timestamp(ps[0]))
    ensures Run(b, Messages(ps)) == (Run([], Messages(ps)).0, Flush(b) + Run([], Messages(ps)).1)
  {
    assert Messages(ps) == [Rtp(ps[0])] + Messages(ps[1..]);
    hide Run, Step, Messages, Flush, Timestamp, FixedSize;
    var m, rest := [Rtp(ps[0])], Messages(ps[1..]);
    RunMore(b, m, rest);
    RunMore([], m, rest);
    OneStep(b, ps[0]);
    OneStep([], ps[0]);
    FlushStep(b, ps[0]);
    var after := Step([], Rtp(ps[0]));
    assert Flush(b) + after.1 + Run(after.0, rest).1 == Flush(b) + (after.1 + Run(after.0, rest).1);
  }

  lemma OneStep(b: seq<Bytes>, p: Bytes)
    requires Headers(b)
    ensures Run(b, [Rtp(p)]) == Step(b, Rtp(p))
  {
    hide Step;
    assert [Rtp(p)][..0] == [];
    var s := Step(b, Rtp(p));
    assert [] + s.1 == s.1;
  }

  lemma FlushStep(b: seq<Bytes>, p: Bytes)
    requires Headers(b) && Complete(p) && (b != [] ==> Timestamp(b[0]) != Timestamp(p))
    ensures Step(b, Rtp(p)) == (Step([], Rtp(p)).0, Flush(b) + Step([], Rtp(p)).1)
  {
    hide Insert, Timestamp, FixedSize, Marker;
    var last := [Reassemble(Insert([], p))];
    assert [] + last == last && Flush(b) + [] == Flush(b);
    assert Flushes(b, p) <==> b != [];
    if Marker(p) {
      assert Step([], Rtp(p)) == ([], last);
      assert Step(b, Rtp(p)) == ([], Flush(b) + last);
    }
  }

  /** One delivery from an empty buffer. */
  lemma DeliveryComesOut(d: Delivery)
    requires Valid(d)
    ensures Run([], Messages(Whole(d))) == if d.marked then ([], [Reassemble(Part(d))]) else (Part(d), [])
  {
    hide Run, Present, Sorted, Messages;
    if d.marked {
      AnyOrder(d.first, d.frame, d.arrivals);
    } else {
      assert d.arrivals + [] == d.arrivals;
      assert Sorted(d.first, d.frame);
      Gathered(d.first, d.frame, d.arrivals);
      PresentSorted(d.first, d.frame, d.arrivals);
      InFront(d.frame);
      SortedUnique(d.first, Run([], Messages(d.arrivals)).0, Present(d.frame, d.arrivals));
    }
  }

  lemma PartIsFrames(d: Delivery)
    requires Valid(d)
    ensures Headers(Part(d)) && Part(d) != [] && Whole(d) != []
    ensures forall p :: p in Part(d) ==> p in d.frame
    ensures Whole(d)[0] in d.frame && Complete(Whole(d)[0])
  {
    hide Present, Timestamp, FixedSize, Sorted;
    InFront(d.frame);
    assert d.arrivals != [] ==> d.arrivals[0] in d.arrivals;
    assert Whole(d)[0] in Whole(d) && Whole(d)[0] in d.frame;
    assert Whole(d)[0] in Part(d);
  }

  lemma NextEndsIt(d: Delivery, e: Delivery)
    requires Valid(d) && Valid(e) && Follows(d, e)
    ensures Headers(Part(d)) && Part(d) != [] && Whole(e) != [] && Complete(Whole(e)[0])
    ensures Timestamp(Part(d)[0]) != Timestamp(Whole(e)[0])
  {
    PartIsFrames(d);
    PartIsFrames(e);
    hide Part, Whole, Valid, Timestamp;
    assert Part(d)[0] in Part(d);
  }

  /**
    Frame after frame is reassembled, once, from what arrived of it, in order: at its marker or,
    when that was lost, at the next frame's first packet.  Only a last frame without marker still waits.
   */
  lemma {:induction false} StreamComesOut(ds: seq<Delivery>)
    requires Streamed(ds)
    ensures Run([], Stream(ds)) == (Left(ds), Ended(ds))
    decreases |ds|
  {
    if ds != [] {
      hide Step, Part, Whole, Run, Messages;
      var n := |ds| - 1;
      var d, front := ds[n], ds[..n];
      assert Valid(d);
      FrontStreams(ds);
      StreamComesOut(front);
      DeliveryComesOut(d);
      PartIsFrames(d);
      if n > 0 {
        assert Follows(ds[n - 1], ds[n]);
        NextEndsIt(ds[n - 1], d);
        PartIsFrames(ds[n - 1]);
      }
      hide Valid, Follows;
      FlushFirst(Left(front), Whole(d));
      RunMore([], Stream(front), Messages(Whole(d)));
      EndedThen(ds);
    } else {
      assert Run([], []) == ([], []);
    }
  }

  lemma FrontStreams(ds: seq<Delivery>)
    requires Streamed(ds) && ds != []
    ensures Streamed(ds[..|ds| - 1])
  {
    hide Valid, Follows;
    var front := ds[..|ds| - 1];
    forall i | 0 < i < |front|
      ensures Follows(front[i - 1], front[i])
    {
      assert Follows(ds[i - 1], ds[i]);
    }
  }

  lemma EndedThen(ds: seq<Delivery>)
    requires Streamed(ds) && ds != []
    ensures var front, d := ds[..|ds| - 1], ds[|ds| - 1];
            (forall i :: 0 <= i < |front| ==> Valid(front[i])) &&
            Ended(ds) == Ended(front) + (Flush(Left(front)) + (if d.marked then [Reassemble(Part(d))] else []))
  {
    hide Valid, Part, Follows, Frames;
    var n := |ds| - 1;
    var front := ds[..n];
    FramesSnoc(ds);
    if n > 0 {
      PartIsFrames(ds[n - 1]);
      FramesSnoc(front);
      assert front[n - 1] == ds[n - 1];
    } else {
      NoFrames();
    }
    assert Frames(front) == Ended(front) + Flush(Left(front));
    assert Frames(front) + [] == Frames(front);
  }

  lemma FramesSnoc(ds: seq<Delivery>)
    requires ds != [] && forall i :: 0 <= i < |ds| ==> Valid(ds[i])
    ensures Frames(ds) == Frames(ds[..|ds| - 1]) + [Reassemble(Part(ds[|ds| - 1]))]
  {
    hide Valid, Part;
  }

  lemma NoFrames()
    ensures Frames([]) == []
  {
  }
}
