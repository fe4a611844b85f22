/**
  The pacing handler (src/pacinghandler.cpp): a token bucket over a queue of packets, with a
  flag that says whether a run has been scheduled.  Times are seconds, sizes bytes.
 */
module Pacing {
  datatype Packet = Packet(id: nat, size: nat)

  function Bytes(ps: seq<Packet>): nat {
    if ps == [] then 0 else Bytes(ps[..|ps| - 1]) + ps[|ps| - 1].size
  }

  function Min(x: real, y: real): real { if x <= y then x else y }

  lemma NonNegative(x: real, y: real)
    requires x >= 0.0 && y >= 0.0
    ensures x * y >= 0.0
  {
  }

  /** Bytes that `elapsed` seconds are worth. */
  function Accrued(elapsed: real, rate: real): real { elapsed * rate }

  /** The refilled and capped budget. */
  function Refill(budget: real, elapsed: real, rate: real, interval: real): (r: real)
    requires elapsed >= 0.0 && rate >= 0.0 && budget <= Accrued(interval, rate)
    ensures budget <= r <= Accrued(interval, rate) && r <= budget + Accrued(elapsed, rate)
  {
    NonNegative(elapsed, rate);
    Min(budget + Accrued(elapsed, rate), Accrued(interval, rate))
  }

  // ---------------------------------------------------------------- runs seen from outside

  /**
    One run: the readings of the clock, the budget before and after, the bytes waiting before it,
    the bytes sent, and whether nothing is left waiting.
   */
  datatype Spend = Spend(
    previous: real, now: real, later: real, before: real, after: real, queued: nat, bytes: int, emptied: bool)

  /** The pace: bytes per second, the interval whose worth caps the budget, a bound on packet sizes. */
  datatype Pace = Pace(rate: real, interval: real, largest: nat) {
    predicate Valid() { rate >= 0.0 && interval >= 0.0 && largest > 0 }

    function Cap(): real { Accrued(interval, rate) }

    /** What `elapsed` seconds earn at most. */
    function Earns(elapsed: real): real { Min(Accrued(elapsed, rate), Cap()) }
  }

  /**
    What is sent is paid for out of the budget and the time passed, up to the cap, to the byte; a
    run stops only when nothing is waiting or the budget is used up, by less than one packet too much.
   */
  predicate Paid(s: Spend, pace: Pace) {
    && s.previous <= s.now <= s.later
    && s.bytes as real + s.after == Min(s.before + Accrued(s.now - s.previous, pace.rate), pace.Cap())
    && s.before > -(pace.largest as real) && s.after > -(pace.largest as real)
    && 0 <= s.bytes <= s.queued
    && if s.emptied then s.bytes == s.queued else s.after <= 0.0
  }

  /** Consecutive runs at a constant rate; between them neither budget nor clock reading changes. */
  ghost predicate Consecutive(runs: seq<Spend>, pace: Pace) {
    && pace.Valid()
    && (forall i :: 0 <= i < |runs| ==> Paid(runs[i], pace))
    && (forall i :: 0 < i < |runs| ==> runs[i].before == runs[i - 1].after && runs[i].previous == runs[i - 1].later)
  }

  function Total(runs: seq<Spend>): int {
    if runs == [] then 0 else Total(runs[..|runs| - 1]) + runs[|runs| - 1].bytes
  }

  lemma MoreRuns(runs: seq<Spend>, s: Spend, pace: Pace)
    requires Consecutive(runs, pace) && Paid(s, pace)
    requires runs != [] ==> s.before == runs[|runs| - 1].after && s.previous == runs[|runs| - 1].later
    ensures Consecutive(runs + [s], pace) && Total(runs + [s]) == Total(runs) + s.bytes
  {
    hide Paid;
    var more := runs + [s];
    assert more[..|runs|] == runs;
    forall i | 0 <= i < |more|
      ensures Paid(more[i], pace)
    {
      assert i < |runs| ==> more[i] == runs[i];
    }
  }

  lemma PartIsConsecutive(runs: seq<Spend>, pace: Pace, i: nat, j: nat)
    requires Consecutive(runs, pace) && i < j <= |runs|
    ensures Consecutive(runs[i..j], pace)
  {
    hide Paid;
    var part := runs[i..j];
    assert forall k :: 0 <= k < |part| ==> part[k] == runs[i + k];
  }

  // ---------------------------------------------------------------- no more than the pace

  lemma LaterIsMore(s: Spend, rate: real)
    requires rate >= 0.0 && s.previous <= s.now <= s.later
    ensures (s.now - s.previous) * rate <= (s.later - s.previous) * rate
  {
    NonNegative(s.later - s.now, rate);
    assert (s.later - s.previous) * rate == (s.now - s.previous) * rate + (s.later - s.now) * rate;
  }

  lemma OnePaid(s: Spend, pace: Pace)
    requires pace.Valid() && Paid(s, pace)
    ensures s.bytes as real + s.after <= s.before + (s.later - s.previous) * pace.rate
  {
    LaterIsMore(s, pace.rate);
  }

  lemma {:induction false} TotalPaid(runs: seq<Spend>, pace: Pace)
    requires Consecutive(runs, pace) && runs != []
    ensures var last := runs[|runs| - 1];
            Total(runs) as real + last.after <= runs[0].before + (last.later - runs[0].previous) * pace.rate
    decreases |runs|
  {
    hide Paid;
    var n := |runs|;
    var last := runs[n - 1];
    OnePaid(last, pace);
    if n == 1 {
      assert runs[..0] == [];
    } else {
      var head := runs[..n - 1];
      assert Consecutive(head, pace);
      TotalPaid(head, pace);
      Distribute(last.previous - runs[0].previous, last.later - last.previous, pace.rate);
    }
  }

  lemma Distribute(a: real, b: real, c: real)
    ensures (a + b) * c == a * c + b * c
  {
  }

  lemma EachPaid(runs: seq<Spend>, pace: Pace, k: nat)
    requires Consecutive(runs, pace) && k < |runs|
    ensures Paid(runs[k], pace)
  {
  }

  /**
    The pacing bound: over any stretch of consecutive runs fewer bytes are sent than the budget
    before, the rate times the elapsed time, and one largest packet.
   */
  lemma PacingBound(runs: seq<Spend>, pace: Pace, i: nat, j: nat)
    requires Consecutive(runs, pace) && i < j <= |runs|
    ensures Total(runs[i..j]) as real <
            runs[i].before + (runs[j - 1].later - runs[i].previous) * pace.rate + pace.largest as real
  {
    hide Consecutive, Total, Accrued;
    PartIsConsecutive(runs, pace, i, j);
    TotalPaid(runs[i..j], pace);
    EachPaid(runs, pace, j - 1);
  }

  // ---------------------------------------------------------------- no less than the pace

  /** Every run leaves something waiting. */
  ghost predicate Backlogged(runs: seq<Spend>) {
    forall i :: 0 <= i < |runs| ==> !runs[i].emptied
  }

  /** What the runs earn, each one up to the cap. */
  function Earned(runs: seq<Spend>, pace: Pace): real {
    if runs == [] then 0.0
    else
      var last := runs[|runs| - 1];
      Earned(runs[..|runs| - 1], pace) + pace.Earns(last.now - last.previous)
  }

  lemma {:induction false} TotalEarned(runs: seq<Spend>, pace: Pace)
    requires Consecutive(runs, pace) && Backlogged(runs) && runs != []
    ensures Total(runs) as real + runs[|runs| - 1].after >= Min(runs[0].before, 0.0) + Earned(runs, pace)
    decreases |runs|
  {
    hide Accrued;
    var n := |runs|;
    EachPaid(runs, pace, n - 1);
    if n == 1 {
      assert runs[..0] == [];
    } else {
      EachPaid(runs, pace, n - 2);
      PartIsConsecutive(runs, pace, 0, n - 1);
      assert runs[0..n - 1] == runs[..n - 1];
      hide Consecutive, Paid;
      TotalEarned(runs[..n - 1], pace);
    }
  }

  /**
    The pace is used: over any stretch of consecutive runs that leave packets waiting, at least
    what the runs earn is sent, less the debt before.
   */
  lemma BacklogIsSent(runs: seq<Spend>, pace: Pace, i: nat, j: nat)
    requires Consecutive(runs, pace) && i < j <= |runs| && Backlogged(runs[i..j])
    ensures Total(runs[i..j]) as real >= Min(runs[i].before, 0.0) + Earned(runs[i..j], pace)
  {
    hide Accrued, Total, Earned;
    PartIsConsecutive(runs, pace, i, j);
    var part := runs[i..j];
    TotalEarned(part, pace);
    EachPaid(part, pace, |part| - 1);
  }

  /** At least `pause` seconds between the runs, and nothing new to send. */
  ghost predicate Draining(runs: seq<Spend>, pause: real) {
    && (forall i :: 0 <= i < |runs| ==> runs[i].now - runs[i].previous >= pause)
    && (forall i :: 0 < i < |runs| ==> runs[i].queued == runs[i - 1].queued - runs[i - 1].bytes)
  }

  lemma EarnsMore(pace: Pace, pause: real, elapsed: real)
    requires pace.Valid() && 0.0 <= pause <= elapsed
    ensures pace.Earns(pause) <= pace.Earns(elapsed)
  {
    NonNegative(elapsed - pause, pace.rate);
    Distribute(pause, elapsed - pause, pace.rate);
  }

  lemma {:induction false} EarnedEach(runs: seq<Spend>, pace: Pace, pause: real)
    requires pace.Valid() && pause >= 0.0 && forall i :: 0 <= i < |runs| ==> runs[i].now - runs[i].previous >= pause
    ensures Earned(runs, pace) >= |runs| as real * pace.Earns(pause)
    decreases |runs|
  {
    hide Pace.Earns;
    if runs != [] {
      var n := |runs| - 1;
      EarnedEach(runs[..n], pace, pause);
      EarnsMore(pace, pause, runs[n].now - runs[n].previous);
      Distribute(n as real, 1.0, pace.Earns(pause));
    }
  }

  lemma {:induction false} DrainedSoFar(runs: seq<Spend>, pace: Pace, pause: real)
    requires Consecutive(runs, pace) && Draining(runs, pause) && runs != []
    ensures Total(runs) == runs[0].queued - runs[|runs| - 1].queued + runs[|runs| - 1].bytes
    ensures Total(runs) <= runs[0].queued
    decreases |runs|
  {
    hide Accrued;
    var n := |runs|;
    EachPaid(runs, pace, n - 1);
    if n == 1 {
      assert runs[..0] == [];
    } else {
      PartIsConsecutive(runs, pace, 0, n - 1);
      assert runs[0..n - 1] == runs[..n - 1];
      hide Consecutive, Paid;
      DrainedSoFar(runs[..n - 1], pace, pause);
    }
  }

  /**
    Every queue is emptied: runs that leave packets waiting, with nothing new to send, are at most
    as many as it takes to earn the waiting bytes and one packet, `pause` seconds at a time.
   */
  lemma BacklogEnds(runs: seq<Spend>, pace: Pace, pause: real)
    requires Consecutive(runs, pace) && Draining(runs, pause) && Backlogged(runs) && runs != [] && pause >= 0.0
    ensures |runs| as real * pace.Earns(pause) < runs[0].queued as real + pace.largest as real
    ensures pace.rate > 0.0 && pace.interval > 0.0 && pause > 0.0 ==> pace.Earns(pause) > 0.0
  {
    if pace.rate > 0.0 && pace.interval > 0.0 && pause > 0.0 {
      Positive(pause, pace.rate);
      Positive(pace.interval, pace.rate);
    }
    hide Accrued, Total, Earned, Pace.Earns;
    assert runs[0..|runs|] == runs;
    BacklogIsSent(runs, pace, 0, |runs|);
    EarnedEach(runs, pace, pause);
    DrainedSoFar(runs, pace, pause);
    EachPaid(runs, pace, 0);
  }

  lemma Positive(x: real, y: real)
    requires x > 0.0 && y > 0.0
    ensures Accrued(x, y) > 0.0
  {
  }

  class PacingHandler {
    const bytesPerSecond: real
    const sendInterval: real
    const maxQueueAmount: nat

    var haveScheduled: bool
    var budget: real
    var lastRun: real
    var rtpBuffer: seq<Packet>

    ghost const Largest: nat          // an upper bound on the packet sizes, positive
    ghost var Sent: seq<Packet>       // handed to the transport, in order
    ghost var Accepted: seq<Packet>   // taken from the application, in order
    ghost var Dropped: nat            // refused for want of room
    ghost var Offered: nat
    ghost var Due: nat                // runs scheduled on the thread pool
    ghost var History: seq<Spend>     // the runs so far

    /** Order and number of packets are conserved, the budget is bounded, a non-empty queue has a run to come. */
    ghost predicate Valid()
      reads this
    {
      && Core()
      && Due == (if haveScheduled then 1 else 0)
      && (rtpBuffer != [] ==> haveScheduled)
    }

    ghost predicate Core()
      reads this
    {
      && Rate().Valid()
      && Accepted == Sent + rtpBuffer
      && Offered == |Accepted| + Dropped
      && Small(rtpBuffer)
      && -(Largest as real) < budget <= Accrued(sendInterval, bytesPerSecond)
      && Recorded()
    }

    ghost function Rate(): Pace { Pace(bytesPerSecond, sendInterval, Largest) }

    ghost predicate Small(ps: seq<Packet>)
    {
      forall i :: 0 <= i < |ps| ==> ps[i].size <= Largest
    }

    /** The history accounts for every byte sent, and ends in the present budget. */
    ghost predicate Recorded()
      reads this
    {
      && Consecutive(History, Rate())
      && Total(History) == Bytes(Sent)
      && (History != [] ==> History[|History| - 1].after == budget && History[|History| - 1].later == lastRun)
    }

    constructor (bitsPerSecond: real, interval: real, maxAmount: nat, ghost largest: nat)
      requires bitsPerSecond >= 0.0 && interval >= 0.0 && largest > 0
      ensures Valid() && rtpBuffer == [] && Accepted == [] && History == [] && budget == 0.0 && Largest == largest
      ensures 8.0 * bytesPerSecond == bitsPerSecond && sendInterval == interval && maxQueueAmount == maxAmount
    {
      bytesPerSecond, sendInterval, maxQueueAmount := bitsPerSecond / 8.0, interval, maxAmount;
      haveScheduled, budget, lastRun, rtpBuffer := false, 0.0, 0.0, [];
      Sent, Accepted, Dropped, Offered, Due, Largest, History := [], [], 0, 0, 0, largest, [];
      new;
      NonNegative(interval, bitsPerSecond / 8.0);
    }

    /**
      Of every handler, over any stretch of its runs so far: fewer bytes than budget, rate and one
      packet allow, and while packets are left waiting at least what the runs earn.
     */
    lemma KeepsThePace(i: nat, j: nat)
      requires Valid() && i < j <= |History|
      ensures Total(History[i..j]) as real <
              History[i].before + (History[j - 1].later - History[i].previous) * bytesPerSecond + Largest as real
      ensures Backlogged(History[i..j]) ==>
                Total(History[i..j]) as real >= Min(History[i].before, 0.0) + Earned(History[i..j], Rate())
      ensures Total(History) == Bytes(Sent)
    {
      hide Total, Bytes, Earned, Accrued, Consecutive, Backlogged, Min, PacingHandler.Small;
      PacingBound(History, Rate(), i, j);
      if Backlogged(History[i..j]) {
        BacklogIsSent(History, Rate(), i, j);
      }
    }

    /** Of every handler: a stretch of runs with nothing new to send empties its queue before long. */
    lemma EmptiesTheQueue(i: nat, j: nat, pause: real)
      requires Valid() && i < j <= |History| && pause >= 0.0
      requires Draining(History[i..j], pause) && Backlogged(History[i..j])
      ensures (j - i) as real * Rate().Earns(pause) < History[i].queued as real + Largest as real
    {
      hide Accrued, Pace.Earns;
      PartIsConsecutive(History, Rate(), i, j);
      BacklogEnds(History[i..j], Rate(), pause);
    }

    /** `schedule`: at most one run is ever scheduled. */
    method Schedule()
      modifies this`haveScheduled, this`Due
      ensures haveScheduled && Due == if old(haveScheduled) then old(Due) else old(Due) + 1
    {
      if !haveScheduled {
        haveScheduled := true;
        Due := Due + 1;
      }
    }

    /** The sending loop of `run`: front first, while there is budget. */
    method SendWhileBudget()
      requires Accepted == Sent + rtpBuffer && Small(rtpBuffer) && -(Largest as real) < budget
      modifies this`rtpBuffer, this`budget, this`Sent
      ensures Accepted == Sent + rtpBuffer && Small(rtpBuffer) && -(Largest as real) < budget <= old(budget)
      ensures old(Sent) <= Sent
      ensures Bytes(Sent) as real + budget == Bytes(old(Sent)) as real + old(budget)
      ensures Bytes(Sent) + Bytes(rtpBuffer) == Bytes(old(Sent)) + Bytes(old(rtpBuffer))
      ensures rtpBuffer == [] || budget <= 0.0
    {
      BytesConcat(Sent, rtpBuffer);
      while rtpBuffer != [] && budget > 0.0
        invariant Accepted == Sent + rtpBuffer && old(Sent) <= Sent && Small(rtpBuffer)
        invariant -(Largest as real) < budget <= old(budget)
        invariant Bytes(Sent) as real + budget == Bytes(old(Sent)) as real + old(budget)
        decreases |rtpBuffer|
      {
        var packet := rtpBuffer[0];
        assert Sent + rtpBuffer == (Sent + [packet]) + rtpBuffer[1..];
        BytesSnoc(Sent, packet);
        Sent := Sent + [packet];
        rtpBuffer := rtpBuffer[1..];
        budget := budget - packet.size as real;
      }
      BytesConcat(Sent, rtpBuffer);
    }

    /** What `run` does to budget, clock and queue. */
    method Account(now: real, later: real)
      requires Core() && lastRun <= now <= later
      modifies this`budget, this`lastRun, this`rtpBuffer, this`Sent, this`History
      ensures Core() && old(Sent) <= Sent
      ensures History == old(History) +
                [Spend(old(lastRun), now, later, old(budget), budget, Bytes(old(rtpBuffer)),
                       Bytes(Sent) - Bytes(old(Sent)), rtpBuffer == [])]
      ensures rtpBuffer == [] || budget <= 0.0
    {
      hide Accrued, Refill, Consecutive, Total, PacingHandler.Small, Bytes;
      budget := Refill(budget, now - lastRun, bytesPerSecond, sendInterval);
      RefillIsMin(old(budget), now - lastRun, bytesPerSecond, sendInterval);
      lastRun := later;
      NothingWeighsNothing();
      SendWhileBudget();
      MoreIsMore(old(Sent), Sent);
      ghost var run := Spend(old(lastRun), now, later, old(budget), budget, Bytes(old(rtpBuffer)),
                             Bytes(Sent) - Bytes(old(Sent)), rtpBuffer == []);
      assert Paid(run, Rate());
      MoreRuns(History, run, Rate());
      History := History + [run];
    }

    /** `run`, `now` and `later` being the two readings of the clock. */
    method Run(now: real, later: real)
      requires Valid() && Due > 0 && lastRun <= now <= later
      modifies this
      ensures Valid()
      ensures Accepted == old(Accepted) && Dropped == old(Dropped) && Offered == old(Offered)
      ensures old(Sent) <= Sent
      ensures History == old(History) +
                [Spend(old(lastRun), now, later, old(budget), budget, Bytes(old(rtpBuffer)),
                       Bytes(Sent) - Bytes(old(Sent)), rtpBuffer == [])]
      ensures rtpBuffer == [] || budget <= 0.0
    {
      hide Accrued, Consecutive, Bytes, Total;
      haveScheduled := false;
      Due := Due - 1;
      Account(now, later);
      if rtpBuffer != [] {
        Schedule();
      }
    }

    /** `outgoing`: takes packets until the queue is full, drops the rest, schedules a run. */
    method Outgoing(messages: seq<Packet>) returns (ghost k: nat)
      requires Valid() && Small(messages)
      modifies this
      ensures Valid() && haveScheduled
      ensures budget == old(budget) && lastRun == old(lastRun) && Sent == old(Sent) && History == old(History)
      ensures k <= |messages| && Accepted == old(Accepted) + messages[..k]
      ensures Offered == old(Offered) + |messages| && Dropped == old(Dropped) + |messages| - k
      ensures k < |messages| ==> maxQueueAmount != 0 && |rtpBuffer| >= maxQueueAmount
    {
      var n := 0;
      while n < |messages|
        modifies this`rtpBuffer
        invariant 0 <= n <= |messages|
        invariant rtpBuffer == old(rtpBuffer) + messages[..n]
      {
        if maxQueueAmount != 0 && |rtpBuffer| >= maxQueueAmount {
          break;
        }
        assert messages[..n + 1] == messages[..n] + [messages[n]];
        rtpBuffer := rtpBuffer + [messages[n]];
        n := n + 1;
      }
      k := n;
      Accepted := Accepted + messages[..k];
      assert Accepted == Sent + rtpBuffer;
      Dropped := Dropped + (|messages| - k);
      Offered := Offered + |messages|;
      Schedule();
    }
  }

  lemma BytesSnoc(ps: seq<Packet>, p: Packet)
    ensures Bytes(ps + [p]) == Bytes(ps) + p.size
  {
    assert (ps + [p])[..|ps|] == ps;
  }

  lemma {:induction false} BytesConcat(a: seq<Packet>, b: seq<Packet>)
    ensures Bytes(a + b) == Bytes(a) + Bytes(b)
    decreases |b|
  {
    if b == [] {
      assert a + b == a;
    } else {
      var n := |b| - 1;
      BytesConcat(a, b[..n]);
      BytesSnoc(a + b[..n], b[n]);
      assert a + b == (a + b[..n]) + [b[n]];
    }
  }

  lemma MoreIsMore(a: seq<Packet>, b: seq<Packet>)
    requires a <= b
    ensures Bytes(a) <= Bytes(b)
  {
    BytesConcat(a, b[|a|..]);
    assert b == a + b[|a|..];
  }

  lemma NothingWeighsNothing()
    ensures Bytes([]) == 0
  {
  }

  lemma RefillIsMin(budget: real, elapsed: real, rate: real, interval: real)
    requires elapsed >= 0.0 && rate >= 0.0 && budget <= Accrued(interval, rate)
    ensures Refill(budget, elapsed, rate, interval) == Min(budget + Accrued(elapsed, rate), Accrued(interval, rate))
  {
  }
}
