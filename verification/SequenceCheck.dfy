/**
  The 16-bit sequence check that every frame reassembler of the library makes while it walks
  its buffer (src/h264rtpdepacketizer.cpp, src/h265rtpdepacketizer.cpp, src/vp8rtpdepacketizer.cpp,
  src/vp9rtpdepacketizer.cpp), and exactly which packets it lets through.
 */
module SequenceCheck {
  import opened Bits
  import opened RtpPacket

  /** A packet is skipped, or follows a gap, or is the expected one. */
  datatype Verdict = Skip | Gap | Next

  function Judge(expected: U16, s: U16): Verdict {
    if s < expected then Skip else if s > expected then Gap else Next
  }

  function Succ16(s: U16): U16 { (s + 1) % 65536 }

  /** `nextSeqNumber` after the first `i` packets of the buffer. */
  function Expected(seqs: seq<U16>, i: nat): U16
    requires i <= |seqs| && seqs != []
  {
    if i == 0 then seqs[0]
    else if Judge(Expected(seqs, i - 1), seqs[i - 1]) == Skip then Expected(seqs, i - 1)
    else Succ16(seqs[i - 1])
  }

  function VerdictOf(seqs: seq<U16>, i: nat): Verdict
    requires i < |seqs|
  {
    Judge(Expected(seqs, i), seqs[i])
  }

  // ---------------------------------------------------------------- against unbounded numbers

  /** Transmission numbers of received packets, in order, within one 16-bit cycle. */
  predicate Received(xs: seq<nat>) {
    && xs != []
    && (forall i, j :: 0 <= i < j < |xs| ==> xs[i] < xs[j])
    && xs[|xs| - 1] - xs[0] < 65536
  }

  function Wire(xs: seq<nat>): (s: seq<U16>)
    ensures |s| == |xs|
  {
    seq(|xs|, i requires 0 <= i < |xs| => xs[i] % 65536)
  }

  /** Between packet `i - 1` and packet `i` the numbers wrap, and 65535 itself was lost. */
  predicate BadWrap(xs: seq<nat>, i: nat)
    requires 0 < i < |xs|
  {
    xs[i - 1] / 65536 < xs[i] / 65536 && xs[i - 1] % 65536 != 65535
  }

  /** The number of packets up to the first such loss. */
  function Live(xs: seq<nat>, i: nat): (n: nat)
    requires 0 < i <= |xs|
    ensures i <= n <= |xs|
    ensures forall k :: i <= k < n ==> !BadWrap(xs, k)
    ensures n < |xs| ==> BadWrap(xs, n)
    decreases |xs| - i
  {
    if i == |xs| || BadWrap(xs, i) then i else Live(xs, i + 1)
  }

  /** What the check should say. */
  function Verdict'(xs: seq<nat>, i: nat): Verdict
    requires i < |xs|
  {
    if i >= Live(xs, 1) then Skip
    else if i == 0 || xs[i] == xs[i - 1] + 1 then Next
    else Gap
  }

  lemma SmallDistance(x: nat, y: nat)
    requires x < y < x + 65536
    ensures x / 65536 <= y / 65536 <= x / 65536 + 1
    ensures x / 65536 == y / 65536 ==> x % 65536 < y % 65536
    ensures x / 65536 < y / 65536 ==> y % 65536 < x % 65536
  {
  }

  /** Before a bad wrap the check expects the successor of the packet before. */
  lemma {:induction false} ExpectedWhileLive(xs: seq<nat>, i: nat)
    requires Received(xs) && 0 < i <= Live(xs, 1)
    ensures Expected(Wire(xs), i) == Succ16(xs[i - 1] % 65536)
    ensures VerdictOf(Wire(xs), i - 1) == Verdict'(xs, i - 1)
    decreases i
  {
    var s := Wire(xs);
    if i > 1 {
      ExpectedWhileLive(xs, i - 1);
      var x, y := xs[i - 2], xs[i - 1];
      assert xs[0] <= x < y <= xs[|xs| - 1];
      SmallDistance(x, y);
      assert !BadWrap(xs, i - 1);
    }
  }

  /** After it the check keeps expecting a number of the old cycle, above all that follow. */
  lemma {:induction false} SkippedAfterwards(xs: seq<nat>, i: nat)
    requires Received(xs) && Live(xs, 1) <= i < |xs|
    ensures Expected(Wire(xs), i) == Succ16(xs[Live(xs, 1) - 1] % 65536)
    ensures VerdictOf(Wire(xs), i) == Skip
    decreases i
  {
    var n := Live(xs, 1);
    if i == n {
      ExpectedWhileLive(xs, n);
    } else {
      SkippedAfterwards(xs, i - 1);
    }
    assert xs[0] <= xs[n - 1] < xs[n] <= xs[i] <= xs[|xs| - 1];
    BehindTheWrap(xs[n - 1], xs[n], xs[i]);
  }

  /** Behind a bad wrap every number is below what the check expects. */
  lemma BehindTheWrap(x: nat, w: nat, y: nat)
    requires x < w <= y < x + 65536 && x / 65536 < w / 65536 && x % 65536 != 65535
    ensures y % 65536 < Succ16(x % 65536)
  {
    SmallDistance(x, w);
    SmallDistance(x, y);
    assert w / 65536 <= y / 65536;
  }

  /**
    The check follows the transmission order of any buffered part of a frame, wraparound
    included, with one exception: when 65535 is lost between two received packets, it drops
    everything behind the wrap.
   */
  lemma CheckFollowsOrder(xs: seq<nat>, i: nat)
    requires Received(xs) && i < |xs|
    ensures VerdictOf(Wire(xs), i) == Verdict'(xs, i)
  {
    if i < Live(xs, 1) {
      ExpectedWhileLive(xs, i + 1);
    } else {
      SkippedAfterwards(xs, i);
    }
  }

  /** Nothing is dropped if and only if no wrap is crossed over a lost 65535. */
  lemma NothingDropped(xs: seq<nat>)
    requires Received(xs)
    ensures (forall i :: 0 <= i < |xs| ==> VerdictOf(Wire(xs), i) != Skip) <==>
            (forall i :: 0 < i < |xs| ==> !BadWrap(xs, i))
  {
    var n := Live(xs, 1);
    forall i | 0 <= i < |xs|
      ensures VerdictOf(Wire(xs), i) == Verdict'(xs, i)
    {
      CheckFollowsOrder(xs, i);
    }
    if n < |xs| {
      assert VerdictOf(Wire(xs), n) == Skip && BadWrap(xs, n);
    }
  }

  /** The loss of one packet, numbered 65535, costs the whole rest of the frame. */
  lemma LostWrapExample()
    ensures Received([65534, 65536, 65537])
    ensures VerdictOf(Wire([65534, 65536, 65537]), 1) == Skip
    ensures VerdictOf(Wire([65534, 65536, 65537]), 2) == Skip
  {
    var xs := [65534, 65536, 65537];
    assert Wire(xs) == [65534, 0, 1];
    assert BadWrap(xs, 1);
    CheckFollowsOrder(xs, 1);
    CheckFollowsOrder(xs, 2);
  }

  // ---------------------------------------------------------------- buffers of packets

  predicate AllReadable(packets: seq<Bytes>) {
    forall i :: 0 <= i < |packets| ==> Readable(packets[i])
  }

  function Seqs(packets: seq<Bytes>): (s: seq<U16>)
    requires AllReadable(packets)
    ensures |s| == |packets|
  {
    seq(|packets|, i requires 0 <= i < |packets| => assert Readable(packets[i]); SeqNumber(packets[i]))
  }

  function PayloadsOf(packets: seq<Bytes>): (s: seq<Bytes>)
    requires AllReadable(packets)
    ensures |s| == |packets|
  {
    seq(|packets|, i requires 0 <= i < |packets| => assert Readable(packets[i]); Payload(packets[i]))
  }

  /** Some of the `n` packets of a frame, in order, by their positions. */
  ghost predicate Positions(n: nat, at: seq<nat>) {
    && at != [] && n <= 65536
    && (forall i, j :: 0 <= i < j < |at| ==> at[i] < at[j])
    && forall i :: 0 <= i < |at| ==> at[i] < n
  }

  /** Their transmission numbers, the frame's first packet being numbered `first`. */
  function Numbers(first: nat, at: seq<nat>): (xs: seq<nat>)
    ensures |xs| == |at|
  {
    seq(|at|, i requires 0 <= i < |at| => first + at[i])
  }

  lemma NumbersReceived(n: nat, first: nat, at: seq<nat>)
    requires Positions(n, at)
    ensures Received(Numbers(first, at))
  {
  }

  /** Ascending positions leave room for those before and behind. */
  lemma {:induction false} Spread(n: nat, at: seq<nat>, i: nat)
    requires Positions(n, at) && i < |at|
    ensures i <= at[i] <= n - (|at| - i)
    decreases |at| - i
  {
    if i + 1 < |at| {
      Spread(n, at, i + 1);
    }
    SpreadLow(n, at, i);
  }

  lemma {:induction false} SpreadLow(n: nat, at: seq<nat>, i: nat)
    requires Positions(n, at) && i < |at|
    ensures i <= at[i]
    decreases i
  {
    if i > 0 {
      SpreadLow(n, at, i - 1);
    }
  }

  /** The check on the `i`-th buffered packet, in terms of positions. */
  lemma VerdictAt(n: nat, first: nat, at: seq<nat>, i: nat)
    requires Positions(n, at) && i < |at|
    ensures var v, live := VerdictOf(Wire(Numbers(first, at)), i), Live(Numbers(first, at), 1);
            && at[i] < n
            && (v == Skip <==> i >= live)
            && (i == 0 ==> v == Next)
            && (i > 0 ==> at[i - 1] < at[i] && (v == Next <==> i < live && at[i] == at[i - 1] + 1))
  {
    hide VerdictOf, Wire, Received;
    NumbersReceived(n, first, at);
    CheckFollowsOrder(Numbers(first, at), i);
  }

  /** Consecutive positions. */
  function Range(a: nat, b: nat): (r: seq<nat>)
    requires a <= b
    ensures |r| == b - a
  {
    seq(b - a, i requires 0 <= i < b - a => a + i)
  }

  /** All of them. */
  function All(n: nat): (at: seq<nat>)
    ensures |at| == n
  {
    seq(n, i => i)
  }

  /** As many positions as there are packets are all of them. */
  lemma AsManyIsAll(n: nat, at: seq<nat>)
    requires Positions(n, at) && |at| == n
    ensures at == All(n)
  {
    forall i | 0 <= i < n
      ensures at[i] == i
    {
      Spread(n, at, i);
    }
  }

  lemma AllAreNext(n: nat, first: nat, i: nat)
    requires i < n <= 65536
    ensures VerdictOf(Wire(Numbers(first, All(n))), i) == Next
  {
    var xs := Numbers(first, All(n));
    NumbersReceived(n, first, All(n));
    assert Live(xs, 1) == |xs| by {
      assert forall k :: 0 < k < |xs| ==> !BadWrap(xs, k);
    }
    CheckFollowsOrder(xs, i);
  }

  /** The buffer holds, in order, the payloads at positions `at`, numbered from `first` on, the last one marked. */
  ghost predicate Carries(packets: seq<Bytes>, payloads: seq<Bytes>, first: nat, at: seq<nat>) {
    && |packets| == |at|
    && forall i :: 0 <= i < |at| ==>
         && Readable(packets[i]) && at[i] < |payloads|
         && SeqNumber(packets[i]) == (first + at[i]) % 65536
         && Payload(packets[i]) == payloads[at[i]]
         && Marker(packets[i]) == (at[i] == |payloads| - 1)
  }
}
