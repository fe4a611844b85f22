/**
  Extended sequence numbers, Appendix A.1 of RFC 3550 (src/rtcpreceivingsession.cpp): 16-bit
  numbers as they arrive, and the unbounded ones they stand for.
 */
module SequenceTracking {
  import opened RtpPacket

  const SEQ_MOD: int := 65536
  const WRAP: int := 0x1_0000_0000
  const MAX_DROPOUT: int := 3000
  const MAX_MISORDER: int := 100

  /** The fields of the session that `updateSeq` reads and writes, probation being 0. */
  datatype Counters = Counters(maxSeq: U16, cycles: U32, badSeq: U32, received: U32)

  function Fresh(seqNumber: U16): Counters {
    Counters(seqNumber, 0, SEQ_MOD + 1, 0)
  }

  /** `udelta`: how far a number is ahead of the highest one, in 16 bits. */
  function Delta(c: Counters, seqNumber: U16): U16 {
    (seqNumber - c.maxSeq) % SEQ_MOD
  }

  predicate Ahead(c: Counters, seqNumber: U16) { Delta(c, seqNumber) < MAX_DROPOUT }

  predicate Jump(c: Counters, seqNumber: U16) {
    MAX_DROPOUT <= Delta(c, seqNumber) <= SEQ_MOD - MAX_MISORDER
  }

  function Counted(c: Counters): Counters {
    c.(received := (c.received + 1) % WRAP)
  }

  /** The counters after a packet, and whether it is accepted. */
  function Updated(c: Counters, seqNumber: U16): (Counters, bool) {
    if Ahead(c, seqNumber) then
      var cycles := if seqNumber < c.maxSeq then (c.cycles + SEQ_MOD) % WRAP else c.cycles;
      (Counted(c.(maxSeq := seqNumber, cycles := cycles)), true)
    else if Jump(c, seqNumber) then
      if seqNumber == c.badSeq then (Counted(Fresh(seqNumber)), true)
      else (c.(badSeq := (seqNumber + 1) % SEQ_MOD), false)
    else (Counted(c), true)
  }

  class ReceivingSession {
    var mMaxSeq: U16
    var mCycles: U32
    var mBadSeq: U32
    var mReceived: U32

    constructor ()
      ensures View() == Counters(0, 0, 0, 0)
    {
      mMaxSeq, mCycles, mBadSeq, mReceived := 0, 0, 0, 0;
    }

    function View(): Counters
      reads this
    {
      Counters(mMaxSeq, mCycles, mBadSeq, mReceived)
    }

    /** `initSeq` */
    method InitSeq(seqNumber: U16)
      modifies this
      ensures View() == Fresh(seqNumber)
    {
      mMaxSeq := seqNumber;
      mBadSeq := SEQ_MOD + 1;
      mCycles := 0;
      mReceived := 0;
    }

    /** `updateSeq` */
    method UpdateSeq(seqNumber: U16) returns (accepted: bool)
      modifies this
      ensures (View(), accepted) == Updated(old(View()), seqNumber)
    {
      var udelta := (seqNumber - mMaxSeq) % SEQ_MOD;
      if udelta < MAX_DROPOUT {
        if seqNumber < mMaxSeq {
          mCycles := (mCycles + SEQ_MOD) % WRAP;
        }
        mMaxSeq := seqNumber;
      } else if udelta <= SEQ_MOD - MAX_MISORDER {
        if seqNumber == mBadSeq {
          InitSeq(seqNumber);
        } else {
          mBadSeq := (seqNumber + 1) % SEQ_MOD;
          return false;
        }
      }
      mReceived := (mReceived + 1) % WRAP;
      return true;
    }
  }

  // ---------------------------------------------------------------- the unbounded numbers

  /** What arrives: a packet of the stream with its true number, or one that does not belong to it. */
  datatype Arrival = Genuine(number: int) | Stray(seqNumber: U16)

  function OnWire(a: Arrival): U16 {
    match a
    case Genuine(x) => x % SEQ_MOD
    case Stray(s) => s
  }

  function Run(c: Counters, arrivals: seq<Arrival>): Counters {
    if arrivals == [] then c
    else Updated(Run(c, arrivals[..|arrivals| - 1]), OnWire(arrivals[|arrivals| - 1])).0
  }

  /** The highest true number, starting from `base`. */
  function Highest(base: int, arrivals: seq<Arrival>): (m: int)
    ensures m >= base
  {
    if arrivals == [] then base
    else
      var m, a := Highest(base, arrivals[..|arrivals| - 1]), arrivals[|arrivals| - 1];
      if a.Genuine? && a.number > m then a.number else m
  }

  function GenuineCount(arrivals: seq<Arrival>): nat {
    if arrivals == [] then 0
    else GenuineCount(arrivals[..|arrivals| - 1]) + (if arrivals[|arrivals| - 1].Genuine? then 1 else 0)
  }

  /** What follows the last stray number, if there was one; never a 16-bit number before. */
  function AfterStray(arrivals: seq<Arrival>): U32 {
    if arrivals == [] then SEQ_MOD + 1
    else
      var a := arrivals[|arrivals| - 1];
      if a.Stray? then (a.seqNumber + 1) % SEQ_MOD else AfterStray(arrivals[..|arrivals| - 1])
  }

  /** A number that the tracker is meant to follow. */
  predicate Near(m: int, x: int) {
    m - MAX_MISORDER < x < m + MAX_DROPOUT
  }

  /** A number that is far from the highest one and does not continue a previous such number. */
  predicate IsStray(m: int, after: U32, s: U16) {
    MAX_DROPOUT <= (s - m) % SEQ_MOD <= SEQ_MOD - MAX_MISORDER && s != after
  }

  predicate Admissible(base: int, arrivals: seq<Arrival>) {
    arrivals == [] ||
    var before, a := arrivals[..|arrivals| - 1], arrivals[|arrivals| - 1];
    Admissible(base, before) &&
    match a
    case Genuine(x) => Near(Highest(base, before), x)
    case Stray(s) => IsStray(Highest(base, before), AfterStray(before), s)
  }

  /** The 16-bit counters agree with the unbounded ones. */
  ghost predicate Tracks(c: Counters, base: int, m: int, count: nat) {
    && c.maxSeq == m % SEQ_MOD
    && c.cycles == SEQ_MOD * (m / SEQ_MOD - base / SEQ_MOD) % WRAP
    && c.received == count % WRAP
  }

  lemma Cycled(a: int, d: nat)
    requires d < SEQ_MOD
    ensures (a + d) % SEQ_MOD < a % SEQ_MOD ==> (a + d) / SEQ_MOD == a / SEQ_MOD + 1
    ensures (a + d) % SEQ_MOD >= a % SEQ_MOD ==> (a + d) / SEQ_MOD == a / SEQ_MOD
  {
  }

  lemma AddWrapped(a: int, b: int)
    ensures (a % WRAP + b) % WRAP == (a + b) % WRAP
  {
  }

  lemma Difference(m: int, x: int)
    ensures (x % SEQ_MOD - m % SEQ_MOD) % SEQ_MOD == (x - m) % SEQ_MOD
  {
  }

  /** One packet near the highest number. */
  lemma NearStep(c: Counters, base: int, m: int, count: nat, x: int)
    requires Tracks(c, base, m, count) && Near(m, x)
    ensures var (d, accepted) := Updated(c, x % SEQ_MOD);
            accepted && d.badSeq == c.badSeq && Tracks(d, base, if x > m then x else m, count + 1)
  {
    Difference(m, x);
    AddWrapped(count, 1);
    if x >= m {
      assert (x - m) % SEQ_MOD == x - m;
      Cycled(m, x - m);
      AddWrapped(SEQ_MOD * (m / SEQ_MOD - base / SEQ_MOD), SEQ_MOD);
    } else {
      assert (x - m) % SEQ_MOD == x - m + SEQ_MOD;
    }
  }

  /** A stray packet is refused and leaves only its mark. */
  lemma StrayStep(c: Counters, base: int, m: int, count: nat, s: U16)
    requires Tracks(c, base, m, count) && IsStray(m, c.badSeq, s)
    ensures Updated(c, s) == (c.(badSeq := (s + 1) % SEQ_MOD), false)
  {
    Difference(m, s);
  }

  /**
    After `initSeq`, for every unbounded run whose true numbers each lie less than 3000 ahead of
    or less than 100 behind the highest one, with stray packets in between: the counters hold the
    true maximum, modulo 2^32 and counted from the base's cycle, and the number of genuine packets.
   */
  lemma {:induction false} TracksEveryRun(base: int, arrivals: seq<Arrival>)
    requires Admissible(base, arrivals)
    ensures var c := Run(Fresh(base % SEQ_MOD), arrivals);
            && Tracks(c, base, Highest(base, arrivals), GenuineCount(arrivals))
            && c.badSeq == AfterStray(arrivals)
  {
    if arrivals != [] {
      hide Updated, Tracks, Near, IsStray;
      var n := |arrivals| - 1;
      var before, a := arrivals[..n], arrivals[n];
      TracksEveryRun(base, before);
      var c := Run(Fresh(base % SEQ_MOD), before);
      match a
      case Genuine(x) => NearStep(c, base, Highest(base, before), GenuineCount(before), x);
      case Stray(s) =>
        StrayStep(c, base, Highest(base, before), GenuineCount(before), s);
        TracksIgnoresMark(c, base, Highest(base, before), GenuineCount(before), (s + 1) % SEQ_MOD);
    }
  }

  lemma TracksIgnoresMark(c: Counters, base: int, m: int, count: nat, mark: U32)
    requires Tracks(c, base, m, count)
    ensures Tracks(c.(badSeq := mark), base, m, count)
  {
  }

  /** The extended number as reports use it. */
  lemma ExtendedNumber(c: Counters, base: int, m: int, count: nat)
    requires Tracks(c, base, m, count) && m >= base
    ensures (c.cycles + c.maxSeq) % WRAP == (m - base / SEQ_MOD * SEQ_MOD) % WRAP
  {
    AddWrapped(SEQ_MOD * (m / SEQ_MOD - base / SEQ_MOD), c.maxSeq);
  }

  /** Every admissible run, in one number. */
  lemma ExtendedMaximum(base: int, arrivals: seq<Arrival>)
    requires Admissible(base, arrivals)
    ensures var c := Run(Fresh(base % SEQ_MOD), arrivals);
            && (c.cycles + c.maxSeq) % WRAP == (Highest(base, arrivals) - base / SEQ_MOD * SEQ_MOD) % WRAP
            && c.received == GenuineCount(arrivals) % WRAP
  {
    TracksEveryRun(base, arrivals);
    ExtendedNumber(Run(Fresh(base % SEQ_MOD), arrivals), base, Highest(base, arrivals), GenuineCount(arrivals));
  }

  // ---------------------------------------------------------------- where the windows end

  /** Within one cycle of the highest number, the windows are exact: outside them the packet is refused. */
  lemma AcceptedIffNear(c: Counters, base: int, m: int, count: nat, x: int)
    requires Tracks(c, base, m, count) && x % SEQ_MOD != c.badSeq
    requires m - (SEQ_MOD - MAX_DROPOUT) <= x <= m + (SEQ_MOD - MAX_MISORDER)
    ensures Updated(c, x % SEQ_MOD).1 <==> Near(m, x)
  {
    if Near(m, x) {
      NearStep(c, base, m, count, x);
    } else {
      Difference(m, x);
      assert (x - m) % SEQ_MOD == if x >= m then x - m else x - m + SEQ_MOD;
    }
  }

  /** A jump makes the tracker start over if and only if it continues the one before. */
  lemma ResyncIff(c: Counters, s: U16)
    requires Jump(c, s)
    ensures Updated(c, s).1 <==> s == c.badSeq
    ensures Updated(c, s).1 ==> Updated(c, s).0 == Counted(Fresh(s))
    ensures !Updated(c, s).1 ==> Updated(c, s).0 == c.(badSeq := (s + 1) % SEQ_MOD)
  {
  }

  /** After two sequential jumps the tracker follows the new numbers, the second one being the first it counts. */
  lemma TwoSequentialRestart(c: Counters, x: int)
    requires x % SEQ_MOD != c.badSeq && Jump(c, x % SEQ_MOD) && Jump(c, (x + 1) % SEQ_MOD)
    ensures Tracks(Run(c, [Genuine(x), Genuine(x + 1)]), x + 1, x + 1, 1)
  {
    hide Updated;
    var one, two := [Genuine(x)], [Genuine(x), Genuine(x + 1)];
    assert two[..1] == one && one[..0] == [];
    var d := Run(c, one);
    assert Run(c, []) == c;
    ResyncIff(c, x % SEQ_MOD);
    assert d == Updated(c, x % SEQ_MOD).0;
    assert (x % SEQ_MOD + 1) % SEQ_MOD == (x + 1) % SEQ_MOD;
    assert Jump(d, (x + 1) % SEQ_MOD);
    ResyncIff(d, (x + 1) % SEQ_MOD);
  }

  /**
    A session is not initialised with its first packet's number: unless that lies near 0 the first
    packet goes uncounted, though it is handed on, and the second, if sequential, counts as the first.
   */
  lemma FirstPacketUncountedIff(x: int)
    ensures Updated(Counters(0, 0, 0, 0), x % SEQ_MOD).1 <==>
            x % SEQ_MOD < MAX_DROPOUT || x % SEQ_MOD > SEQ_MOD - MAX_MISORDER
    ensures MAX_DROPOUT <= x % SEQ_MOD < SEQ_MOD - MAX_MISORDER ==>
              Tracks(Run(Counters(0, 0, 0, 0), [Genuine(x), Genuine(x + 1)]), x + 1, x + 1, 1)
  {
    var c := Counters(0, 0, 0, 0);
    if MAX_DROPOUT <= x % SEQ_MOD < SEQ_MOD - MAX_MISORDER {
      assert (x + 1) % SEQ_MOD == x % SEQ_MOD + 1;
      TwoSequentialRestart(c, x);
    }
  }
}
