/**
  The reassembly of NAL units that the H.264 and H.265 depacketizers share once a payload has
  been parsed: what a lossless buffer yields, and what survives every pattern of loss.
 */
module NalAssembly {
  import opened Bits
  import opened StartCode
  import opened RtpPacket
  import opened SequenceCheck

  /** What one payload contributes. */
  datatype Event =
    | Nothing                                                            // nothing to read
    | Whole(units: seq<Bytes>)                                           // complete units
    | Fragment(start: bool, end: bool, header: Bytes, data: Bytes)       // a piece of one unit
    | Malformed                                                          // the source throws

  /** The units delivered so far and whether the last of them is still being continued. */
  datatype State = State(units: seq<Bytes>, continuous: bool) | Thrown

  const Start := State([], false)

  function AppendToLast(units: seq<Bytes>, data: Bytes): (r: seq<Bytes>)
    ensures |r| == |units|
  {
    if units == [] then [] else units[..|units| - 1] + [units[|units| - 1] + data]
  }

  /** One round of the loop in `reassemble`. */
  function Step(st: State, v: Verdict, e: Event): State {
    if st.Thrown? || v == Skip then st
    else
      var continuous := st.continuous && v == Next;
      match e
      case Nothing => State(st.units, continuous)
      case Malformed => Thrown
      case Whole(units) => State(st.units + units, false)
      case Fragment(start, end, header, data) =>
        var units := if start then st.units + [header] else st.units;
        var going := start || continuous;
        State(if going then AppendToLast(units, data) else units, going && !end)
  }

  /** A packet with nothing to read adds nothing and interrupts nothing. */
  lemma NothingIsPassedOver(st: State)
    ensures Step(st, Next, Nothing) == st
  {
  }

  /** The state after the first `i` packets, `seqs` and `events` describing the buffer. */
  function After(seqs: seq<U16>, events: seq<Event>, i: nat): State
    requires i <= |events| == |seqs|
  {
    if i == 0 then Start
    else Step(After(seqs, events, i - 1), VerdictOf(seqs, i - 1), events[i - 1])
  }

  /** Appending to the last unit appends to the frame. */
  lemma JoinedAppend(sep: Separator, units: seq<Bytes>, data: Bytes)
    requires units != []
    ensures Joined(sep, AppendToLast(units, data)) == Joined(sep, units) + data
  {
    var n := |units|;
    var longer := AppendToLast(units, data);
    assert longer[..n - 1] == units[..n - 1];
    assert longer[n - 1] == units[n - 1] + data;
  }

  lemma JoinedSnoc(sep: Separator, units: seq<Bytes>, u: Bytes)
    ensures Joined(sep, units + [u]) == Joined(sep, units) + sep.Code() + u
  {
    assert (units + [u])[..|units|] == units;
  }

  /** A unit is being continued only when there is one. */
  lemma {:induction false} ContinuousHasUnit(seqs: seq<U16>, events: seq<Event>, i: nat)
    requires i <= |events| == |seqs|
    ensures var st := After(seqs, events, i); st.State? && st.continuous ==> st.units != []
  {
    if i > 0 {
      ContinuousHasUnit(seqs, events, i - 1);
    }
  }

  // ---------------------------------------------------------------- a frame cut into pieces

  /**
    A payload of the frame: the last of the units it holds, or the one it belongs to, and that
    unit's bytes up to its end.
   */
  datatype Piece = Piece(payload: Bytes, event: Event, owner: nat, upTo: Bytes) {
    predicate Opens() { event.Whole? || (event.Fragment? && event.start) }
    predicate Closes() { event.Whole? || (event.Fragment? && event.end) }

    /** The first of the units; more than one only in an aggregation packet. */
    function First(): int { if event.Whole? then owner + 1 - |event.units| else owner }

    /** What is there of its units once it has been taken in. */
    function Held(): seq<Bytes> { if event.Whole? then event.units else [upTo] }
  }

  /** Piece `q` says what it should about its unit, given the piece before it. */
  predicate WellCut(units: seq<Bytes>, ps: seq<Piece>, q: nat)
    requires q < |ps|
  {
    && var p := ps[q];
    && p.owner < |units|
    && p.upTo <= units[p.owner]
    && (p.Closes() ==> p.upTo == units[p.owner])
    && (p.event.Whole? ==> 0 < |p.event.units| <= p.owner + 1 && p.event.units == units[p.First()..p.owner + 1])
    && (p.event.Whole? || p.event.Fragment?)
    && (p.event.Fragment? ==> !(p.event.start && p.event.end))
    && (p.Opens() ==>
          && p.First() == (if q == 0 then 0 else ps[q - 1].owner + 1)
          && (q > 0 ==> ps[q - 1].Closes())
          && (p.event.Fragment? ==> p.upTo == p.event.header + p.event.data))
    && (!p.Opens() ==>
          && q > 0 && !ps[q - 1].Closes()
          && p.owner == ps[q - 1].owner
          && p.upTo == ps[q - 1].upTo + p.event.data)
  }

  /** The pieces of a whole frame, in transmission order. */
  ghost predicate Cut(units: seq<Bytes>, ps: seq<Piece>) {
    && (forall q :: 0 <= q < |ps| ==> WellCut(units, ps, q))
    && (units == [] <==> ps == [])
    && (ps != [] ==> ps[|ps| - 1].owner == |units| - 1 && ps[|ps| - 1].Closes())
  }

  /** Pieces `a` to `b` are one fragmented unit: a start, middles, an end. */
  ghost predicate StartMiddleEnd(ps: seq<Piece>, a: nat, b: nat) {
    && a < b < |ps|
    && (forall k :: a <= k <= b ==> ps[k].event.Fragment? && ps[k].owner == ps[a].owner)
    && (forall k :: a <= k <= b ==> (ps[k].event.start <==> k == a) && (ps[k].event.end <==> k == b))
  }

  /** Back to where the unit of piece `q` starts. */
  lemma {:induction false} RunStart(units: seq<Bytes>, ps: seq<Piece>, q: nat) returns (a: nat)
    requires Cut(units, ps) && q < |ps| && ps[q].event.Fragment?
    ensures a <= q && ps[a].event.Fragment? && ps[a].event.start
    ensures forall k :: a <= k <= q ==> ps[k].event.Fragment? && ps[k].owner == ps[q].owner
    ensures forall k :: a < k <= q ==> !ps[k].event.start
    ensures forall k :: a <= k < q ==> !ps[k].event.end
    decreases q
  {
    assert WellCut(units, ps, q);
    if ps[q].event.start {
      a := q;
    } else {
      assert WellCut(units, ps, q - 1);
      a := RunStart(units, ps, q - 1);
    }
  }

  /** On to where it ends. */
  lemma {:induction false} RunEnd(units: seq<Bytes>, ps: seq<Piece>, q: nat) returns (b: nat)
    requires Cut(units, ps) && q < |ps| && ps[q].event.Fragment?
    ensures q <= b < |ps| && ps[b].event.Fragment? && ps[b].event.end
    ensures forall k :: q <= k <= b ==> ps[k].event.Fragment? && ps[k].owner == ps[q].owner
    ensures forall k :: q < k <= b ==> !ps[k].event.start
    ensures forall k :: q <= k < b ==> !ps[k].event.end
    decreases |ps| - q
  {
    if ps[q].event.end {
      b := q;
    } else {
      assert WellCut(units, ps, q + 1);
      b := RunEnd(units, ps, q + 1);
    }
  }

  /** Every fragment of a cut frame lies in a run of one start, middles and one end. */
  lemma FragmentsAreRuns(units: seq<Bytes>, ps: seq<Piece>, q: nat) returns (a: nat, b: nat)
    requires Cut(units, ps) && q < |ps| && ps[q].event.Fragment?
    ensures a <= q <= b && StartMiddleEnd(ps, a, b)
  {
    a := RunStart(units, ps, q);
    b := RunEnd(units, ps, q);
    assert WellCut(units, ps, a);
  }

  function Events(ps: seq<Piece>, at: seq<nat>): (es: seq<Event>)
    requires forall i :: 0 <= i < |at| ==> at[i] < |ps|
    ensures |es| == |at|
  {
    seq(|at|, i requires 0 <= i < |at| => ps[at[i]].event)
  }

  // ---------------------------------------------------------------- what survives a loss

  /** Each delivered unit is the beginning of its own original, in the original order. */
  predicate Survives(units: seq<Bytes>, delivered: seq<Bytes>, who: seq<nat>) {
    && |who| == |delivered|
    && (forall i, j :: 0 <= i < j < |who| ==> who[i] < who[j])
    && (forall i :: 0 <= i < |who| ==> who[i] < |units| && delivered[i] <= units[who[i]])
  }

  /** `q` being the last position looked at, nothing delivered lies beyond it. */
  ghost predicate Accounted(units: seq<Bytes>, ps: seq<Piece>, st: State, who: seq<nat>, q: nat)
    requires q < |ps|
  {
    && st.State?
    && Survives(units, st.units, who)
    && (forall i :: 0 <= i < |who| ==> who[i] <= ps[q].owner)
    && (st.continuous ==>
          && !ps[q].Closes()
          && who != [] && who[|who| - 1] == ps[q].owner
          && st.units[|who| - 1] == ps[q].upTo)
  }

  lemma {:induction false} OwnersGrow(units: seq<Bytes>, ps: seq<Piece>, q: nat, r: nat)
    requires q <= r < |ps| && forall k :: 0 <= k < |ps| ==> WellCut(units, ps, k)
    ensures ps[q].owner <= ps[r].owner
    decreases r
  {
    if q < r {
      OwnersGrow(units, ps, q, r - 1);
      assert WellCut(units, ps, r);
    }
  }

  lemma StepOpens(st: State, v: Verdict, p: Piece)
    requires st.State? && v != Skip && p.Opens()
    requires p.event.Fragment? ==> p.upTo == p.event.header + p.event.data
    ensures Step(st, v, p.event) == State(st.units + p.Held(), !p.Closes())
  {
    if p.event.Fragment? {
      var u := st.units + [p.event.header];
      assert u[..|u| - 1] == st.units;
    }
  }

  lemma StepContinues(st: State, v: Verdict, p: Piece)
    requires st.State? && v != Skip && p.event.Fragment? && !p.Opens()
    ensures st.continuous && v == Next ==>
              Step(st, v, p.event) == State(AppendToLast(st.units, p.event.data), !p.Closes())
    ensures !(st.continuous && v == Next) ==> Step(st, v, p.event) == State(st.units, false)
  {
  }

  /** Units from `first` on, behind those that are there. */
  lemma MoreSurvive(units: seq<Bytes>, delivered: seq<Bytes>, who: seq<nat>, more: seq<Bytes>, first: nat)
    requires Survives(units, delivered, who) && forall i :: 0 <= i < |who| ==> who[i] < first
    requires first + |more| <= |units| && forall i :: 0 <= i < |more| ==> more[i] <= units[first + i]
    ensures Survives(units, delivered + more, who + Range(first, first + |more|))
  {
  }

  /** What an opening piece holds are its units, or the beginning of one. */
  lemma HeldIsThere(units: seq<Bytes>, ps: seq<Piece>, r: nat)
    requires r < |ps| && WellCut(units, ps, r) && ps[r].Opens()
    ensures var p := ps[r];
            && 0 <= p.First() <= p.owner < |units| && |p.Held()| == p.owner + 1 - p.First()
            && (forall i :: 0 <= i < |p.Held()| ==> p.Held()[i] <= units[p.First() + i])
            && (p.event.Fragment? ==> p.upTo == p.event.header + p.event.data)
            && (!p.Closes() ==> p.Held() == [p.upTo])
  {
  }

  lemma RangeEnds(a: nat, b: nat)
    requires a < b
    ensures Range(a, b)[b - a - 1] == b - 1 && forall i :: 0 <= i < b - a ==> a <= Range(a, b)[i] < b
  {
  }

  /** An opening piece behind what has survived so far. */
  lemma OpenAccounts(units: seq<Bytes>, ps: seq<Piece>, st: State, who: seq<nat>, r: nat, v: Verdict)
    requires r < |ps| && WellCut(units, ps, r) && ps[r].Opens()
    requires st.State? && v != Skip && Survives(units, st.units, who) && forall i :: 0 <= i < |who| ==> who[i] < ps[r].First()
    ensures ps[r].First() >= 0
    ensures Accounted(units, ps, Step(st, v, ps[r].event), who + Range(ps[r].First(), ps[r].owner + 1), r)
  {
    HeldIsThere(units, ps, r);
    hide WellCut, Step, Survives, Range;
    var p := ps[r];
    StepOpens(st, v, p);
    MoreSurvive(units, st.units, who, p.Held(), p.First());
    RangeEnds(p.First(), p.owner + 1);
    hide Piece.Held, Piece.First, Piece.Closes, Piece.Opens;
  }

  /** One more piece `r` after position `q`; the verdict says `Next` only when it is adjacent. */
  lemma StepSurvives(units: seq<Bytes>, ps: seq<Piece>, st: State, who: seq<nat>, q: nat, r: nat, v: Verdict)
    returns (who': seq<nat>)
    requires q < r < |ps| && forall k :: 0 <= k < |ps| ==> WellCut(units, ps, k)
    requires Accounted(units, ps, st, who, q) && v != Skip && (v == Next ==> r == q + 1)
    ensures Accounted(units, ps, Step(st, v, ps[r].event), who', r)
  {
    hide Step;
    OwnersGrow(units, ps, q, r);
    assert WellCut(units, ps, r);
    if ps[r].Opens() {
      OwnersGrow(units, ps, q, r - 1);
      who' := who + Range(ps[r].First(), ps[r].owner + 1);
      OpenAccounts(units, ps, st, who, r, v);
    } else {
      who' := who;
      StepContinues(st, v, ps[r]);
    }
  }

  /** The first buffered piece starts from nothing. */
  lemma FirstSurvives(units: seq<Bytes>, ps: seq<Piece>, r: nat) returns (who: seq<nat>)
    requires r < |ps| && WellCut(units, ps, r)
    ensures Accounted(units, ps, Step(Start, Next, ps[r].event), who, r)
  {
    hide Step, Survives, Range;
    NoneSurvive(units);
    if ps[r].Opens() {
      OpenAccounts(units, ps, Start, [], r, Next);
      who := [] + Range(ps[r].First(), ps[r].owner + 1);
    } else {
      who := [];
      StepContinues(Start, Next, ps[r]);
    }
  }

  lemma NoneSurvive(units: seq<Bytes>)
    ensures Survives(units, [], [])
  {
  }

  /** The state after the first `i` buffered packets of a frame. */
  function StateAt(ps: seq<Piece>, first: nat, at: seq<nat>, i: nat): State
    requires i <= |at| && forall k :: 0 <= k < |at| ==> at[k] < |ps|
  {
    After(Wire(Numbers(first, at)), Events(ps, at), i)
  }

  /** The last position that was looked at. */
  function Reached(first: nat, at: seq<nat>, i: nat): (q: nat)
    requires 0 < i <= |at|
  {
    var n := Live(Numbers(first, at), 1);
    at[(if i <= n then i else n) - 1]
  }

  /** What the sequence check says of packet `i`. */
  function CheckAt(first: nat, at: seq<nat>, i: nat): Verdict
    requires i < |at|
  {
    VerdictOf(Wire(Numbers(first, at)), i)
  }

  lemma CheckMeans(n: nat, first: nat, at: seq<nat>, i: nat)
    requires Positions(n, at) && i < |at|
    ensures var v, live := CheckAt(first, at, i), Live(Numbers(first, at), 1);
            && (v == Skip <==> i >= live)
            && (i == 0 ==> v == Next)
            && (i > 0 ==> at[i - 1] < at[i] && (v == Next <==> i < live && at[i] == at[i - 1] + 1))
  {
    VerdictAt(n, first, at, i);
    hide VerdictOf, Wire, Numbers, Positions, Live;
  }

  lemma StateStep(ps: seq<Piece>, first: nat, at: seq<nat>, i: nat)
    requires i < |at| && forall k :: 0 <= k < |at| ==> at[k] < |ps|
    ensures StateAt(ps, first, at, i + 1) == Step(StateAt(ps, first, at, i), CheckAt(first, at, i), ps[at[i]].event)
  {
    hide Step, VerdictOf, Wire, Numbers;
    assert Events(ps, at)[i] == ps[at[i]].event;
  }

  lemma SkipKeeps(st: State, e: Event)
    ensures Step(st, Skip, e) == st
  {
  }

  lemma {:induction false} SurvivesUpTo(units: seq<Bytes>, ps: seq<Piece>, first: nat, at: seq<nat>, i: nat)
    returns (who: seq<nat>)
    requires Cut(units, ps) && Positions(|ps|, at)
    requires 0 < i <= |at|
    ensures Accounted(units, ps, StateAt(ps, first, at, i), who, Reached(first, at, i))
    decreases i
  {
    hide Accounted, Step, Cut, WellCut, StateAt, CheckAt, Live, Numbers, Reached;
    CutMeans(units, ps);
    StartIsState(ps, first, at);
    StateStep(ps, first, at, i - 1);
    CheckMeans(|ps|, first, at, i - 1);
    ReachedStep(first, at, i);
    if i == 1 {
      who := FirstSurvives(units, ps, at[0]);
    } else {
      who := SurvivesUpTo(units, ps, first, at, i - 1);
      ReachedStep(first, at, i - 1);
      var st := StateAt(ps, first, at, i - 1);
      if i <= Live(Numbers(first, at), 1) {
        who := StepSurvives(units, ps, st, who, at[i - 2], at[i - 1], CheckAt(first, at, i - 1));
      } else {
        SkipKeeps(st, ps[at[i - 1]].event);
      }
    }
  }

  lemma CutMeans(units: seq<Bytes>, ps: seq<Piece>)
    requires Cut(units, ps)
    ensures forall q :: 0 <= q < |ps| ==> WellCut(units, ps, q)
  {
  }

  lemma ReachedStep(first: nat, at: seq<nat>, i: nat)
    requires 0 < i <= |at|
    ensures i <= Live(Numbers(first, at), 1) ==> Reached(first, at, i) == at[i - 1]
    ensures i > Live(Numbers(first, at), 1) ==> i > 1 && Reached(first, at, i) == Reached(first, at, i - 1)
  {
    hide Live, Numbers;
  }

  /**
    Loss safety: whatever part of a frame's packets is in the buffer, and wherever its numbers
    start, reassembly does not fail, and every delivered unit is a prefix of an original one,
    different units in the original order; so bytes behind a gap never join a unit before it.
   */
  lemma LossSafe(units: seq<Bytes>, ps: seq<Piece>, first: nat, at: seq<nat>)
    requires Cut(units, ps) && Positions(|ps|, at)
    ensures var st := After(Wire(Numbers(first, at)), Events(ps, at), |at|);
            st.State? && exists who :: Survives(units, st.units, who)
  {
    hide After, Wire, Numbers, Events, Cut, Survives, Reached;
    assert at != [];
    var who := SurvivesUpTo(units, ps, first, at, |at|);
  }

  // ---------------------------------------------------------------- what is not lost is delivered

  /** All pieces of the unit that opens at `ps[at[k]]`, up to `ps[at[m]]`, are there one after the other. */
  ghost predicate Unbroken(ps: seq<Piece>, at: seq<nat>, k: nat, m: nat) {
    && k <= m < |at|
    && (forall i :: 0 <= i < |at| ==> at[i] < |ps|)
    && ps[at[k]].Opens()
    && forall i :: k < i <= m ==> at[i] == at[i - 1] + 1 && !ps[at[i]].Opens()
  }

  lemma NeverThrows(units: seq<Bytes>, ps: seq<Piece>, first: nat, at: seq<nat>, k: nat)
    requires Cut(units, ps) && Positions(|ps|, at) && k <= |at|
    ensures StateAt(ps, first, at, k).State?
  {
    StartIsState(ps, first, at);
    hide Cut, Survives, StateAt, Reached;
    if k > 0 {
      var who := SurvivesUpTo(units, ps, first, at, k);
    }
  }

  /** A piece that continues the one before, with its unit open. */
  lemma ContinuesLast(st: State, units: seq<Bytes>, before: Bytes, v: Verdict, p: Piece)
    requires st == State(units + [before], true) && v == Next && p.event.Fragment? && !p.Opens()
    requires p.upTo == before + p.event.data
    ensures Step(st, v, p.event) == State(units + [p.upTo], !p.Closes())
  {
    StepContinues(st, v, p);
    hide Step;
    assert st.units[..|st.units| - 1] == units;
  }

  /** What an unbroken run of pieces looks like at its end. */
  lemma UnbrokenEnd(units: seq<Bytes>, ps: seq<Piece>, at: seq<nat>, k: nat, m: nat)
    requires Cut(units, ps) && Unbroken(ps, at, k, m)
    ensures m < |at| && at[m] < |ps|
    ensures var p := ps[at[m]];
            && (m == k ==> p.Opens() && (p.event.Fragment? ==> p.upTo == p.event.header + p.event.data))
            && (m > k ==>
                  && Unbroken(ps, at, k, m - 1) && at[m - 1] < |ps| && at[m] == at[m - 1] + 1
                  && p.event.Fragment? && !p.Opens() && !ps[at[m - 1]].Closes()
                  && p.upTo == ps[at[m - 1]].upTo + p.event.data)
  {
    assert WellCut(units, ps, at[m]);
  }

  /** One more piece of an unbroken run adds to the unit `u` is followed by. */
  lemma UnbrokenGrows(units: seq<Bytes>, ps: seq<Piece>, first: nat, at: seq<nat>, k: nat, m: nat, u: seq<Bytes>)
    requires Cut(units, ps) && Positions(|ps|, at) && Unbroken(ps, at, k, m) && m < Live(Numbers(first, at), 1)
    requires m == k ==> StateAt(ps, first, at, m).State? && u == StateAt(ps, first, at, m).units
    requires m > k ==> StateAt(ps, first, at, m) == State(u + ps[at[m - 1]].Held(), !ps[at[m - 1]].Closes())
    ensures StateAt(ps, first, at, m + 1) == State(u + ps[at[m]].Held(), !ps[at[m]].Closes())
  {
    UnbrokenEnd(units, ps, at, k, m);
    StateStep(ps, first, at, m);
    CheckMeans(|ps|, first, at, m);
    hide Step, Cut, Unbroken, StateAt, CheckAt, Live, Numbers, Positions;
    var p, st, v := ps[at[m]], StateAt(ps, first, at, m), CheckAt(first, at, m);
    if m == k {
      StepOpens(st, v, p);
    } else {
      ContinuesLast(st, u, ps[at[m - 1]].upTo, v, p);
    }
  }

  lemma {:induction false} UnbrokenIsDelivered(units: seq<Bytes>, ps: seq<Piece>, first: nat, at: seq<nat>, k: nat, m: nat)
    requires Cut(units, ps) && Positions(|ps|, at) && Unbroken(ps, at, k, m)
    requires m < Live(Numbers(first, at), 1)
    ensures StateAt(ps, first, at, k).State?
    ensures StateAt(ps, first, at, m + 1) ==
            State(StateAt(ps, first, at, k).units + ps[at[m]].Held(), !ps[at[m]].Closes())
    decreases m
  {
    NeverThrows(units, ps, first, at, k);
    hide Cut, StateAt, Live, Numbers;
    if m > k {
      UnbrokenIsDelivered(units, ps, first, at, k, m - 1);
    }
    UnbrokenGrows(units, ps, first, at, k, m, StateAt(ps, first, at, k).units);
  }

  lemma StartIsState(ps: seq<Piece>, first: nat, at: seq<nat>)
    requires forall k :: 0 <= k < |at| ==> at[k] < |ps|
    ensures StateAt(ps, first, at, 0) == Start
  {
  }

  /** A unit that is not being continued is never touched again. */
  lemma {:induction false} ClosedStays(seqs: seq<U16>, es: seq<Event>, i: nat, j: nat)
    requires i <= j <= |es| == |seqs|
    requires After(seqs, es, i).State? && !After(seqs, es, i).continuous && After(seqs, es, j).State?
    ensures var u, st := After(seqs, es, i).units, After(seqs, es, j);
            u <= st.units && (st.continuous ==> |st.units| > |u|)
    decreases j
  {
    if i < j {
      hide VerdictOf;
      ClosedStays(seqs, es, i, j - 1);
    }
  }

  lemma ClosingPiece(units: seq<Bytes>, ps: seq<Piece>, q: nat)
    requires Cut(units, ps) && q < |ps| && ps[q].Closes()
    ensures 0 <= ps[q].First() <= ps[q].owner < |units| && ps[q].Held() == units[ps[q].First()..ps[q].owner + 1]
  {
    assert WellCut(units, ps, q);
  }

  lemma StillThere(before: seq<Bytes>, held: seq<Bytes>, after: seq<Bytes>)
    requires before + held <= after
    ensures forall u :: u in held ==> u in after
  {
    forall i | 0 <= i < |held|
      ensures held[i] in after
    {
      assert after[|before| + i] == (before + held)[|before| + i];
    }
  }

  /**
    Reassembly also loses nothing needlessly: a unit all of whose packets are there, ahead of
    any wrap over a lost 65535, is delivered complete, whatever else is missing; and so are all
    units of an aggregation packet.
   */
  lemma CompleteUnitIsDelivered(units: seq<Bytes>, ps: seq<Piece>, first: nat, at: seq<nat>, k: nat, m: nat)
    requires Cut(units, ps) && Positions(|ps|, at) && Unbroken(ps, at, k, m)
    requires m < Live(Numbers(first, at), 1) && ps[at[m]].Closes()
    ensures 0 <= ps[at[m]].First() <= ps[at[m]].owner < |units|
    ensures var st := After(Wire(Numbers(first, at)), Events(ps, at), |at|);
            st.State? && forall u :: u in units[ps[at[m]].First()..ps[at[m]].owner + 1] ==> u in st.units
  {
    hide Wire, Numbers, Events, After, WellCut, Cut, Live, Survives;
    var seqs, es := Wire(Numbers(first, at)), Events(ps, at);
    ClosingPiece(units, ps, at[m]);
    UnbrokenIsDelivered(units, ps, first, at, k, m);
    LossSafe(units, ps, first, at);
    ClosedStays(seqs, es, m + 1, |at|);
    var after := After(seqs, es, |at|).units;
    StillThere(StateAt(ps, first, at, k).units, ps[at[m]].Held(), after);
  }

  // ---------------------------------------------------------------- nothing lost

  /** What is delivered once piece `p` has been taken in. */
  function DeliveredAt(units: seq<Bytes>, p: Piece): State
    requires p.owner < |units|
  {
    State(units[..p.owner] + [p.upTo], !p.Closes())
  }

  lemma LosslessStep(units: seq<Bytes>, ps: seq<Piece>, q: nat)
    requires q + 1 < |ps| && WellCut(units, ps, q) && WellCut(units, ps, q + 1)
    ensures Step(DeliveredAt(units, ps[q]), Next, ps[q + 1].event) == DeliveredAt(units, ps[q + 1])
  {
    hide Step;
    var before, p := ps[q], ps[q + 1];
    var st := DeliveredAt(units, before);
    if p.Opens() {
      assert units[..before.owner] + [units[before.owner]] == units[..p.First()];
      assert units[..p.First()] + p.Held() == units[..p.owner] + [p.upTo];
      StepOpens(st, Next, p);
    } else {
      assert st.units[..|st.units| - 1] == units[..p.owner];
      StepContinues(st, Next, p);
    }
  }

  lemma {:induction false} LosslessUpTo(units: seq<Bytes>, ps: seq<Piece>, first: nat, i: nat)
    requires Cut(units, ps) && i < |ps| <= 65536
    ensures ps[i].owner < |units|
    ensures After(Wire(Numbers(first, All(|ps|))), Events(ps, All(|ps|)), i + 1) == DeliveredAt(units, ps[i])
    decreases i
  {
    hide Step, VerdictOf;
    AllAreNext(|ps|, first, i);
    assert WellCut(units, ps, i);
    if i == 0 {
      StepOpens(Start, Next, ps[0]);
    } else {
      LosslessUpTo(units, ps, first, i - 1);
      LosslessStep(units, ps, i - 1);
    }
  }

  /** All packets of a frame, in order, give back exactly its units, also across 65535. */
  lemma Lossless(units: seq<Bytes>, ps: seq<Piece>, first: nat)
    requires Cut(units, ps) && 0 < |ps| <= 65536
    ensures After(Wire(Numbers(first, All(|ps|))), Events(ps, All(|ps|)), |ps|) == State(units, false)
  {
    hide After, Wire, Numbers, Events;
    LosslessUpTo(units, ps, first, |ps| - 1);
    var last := ps[|ps| - 1];
    assert WellCut(units, ps, |ps| - 1);
    assert units[..last.owner] + [last.upTo] == units;
  }
}
