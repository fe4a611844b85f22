/**
  The wake-up protocol of the DTLS receive path (src/impl/dtlstransport.cpp, OpenSSL branch):
  a counter that is checked and incremented in separate steps, pool tasks that drain a queue,
  and timer tasks that decrement the counter without ever having incremented it.
 */
module DtlsReceive {

  type Message = nat

  /** Before `start` has changed the state, while Connecting or Connected, and afterwards. */
  datatype Phase = Idle | Live | Over

  /** What the holder of mRecvMutex is doing in doRecv, if there is one. */
  datatype Holder =
    | Nobody
    | Looking      // has decremented the counter and is about to read the state
    | Draining     // in its loop
    | Leaving      // has found the queue empty; may still schedule a timer

  datatype World = World(
    phase: Phase,
    queue: seq<Message>, stopped: bool,
    count: int,            // mPendingRecvCount
    entering: nat,         // threads about to check the counter in enqueueRecv
    checked: nat,          // threads that found it not positive and will increment it
    about: nat,            // threads that incremented it and will hand doRecv to the pool
    due: nat,              // doRecv calls in the pool
    timers: nat,           // doRecv calls scheduled by handleTimeout
    arming: bool,          // start is about to schedule such a call
    holder: Holder,
    pushed: seq<Message>, drained: seq<Message>)

  const Initial := World(Idle, [], false, 0, 0, 0, 0, 0, 0, false, Nobody, [], [])

  datatype Action =
    | Push(m: Message)            // incoming: the message enters the queue
    | Stop                        // stop, or incoming without message
    | SilentStop                  // the queue is stopped by a callback, without enqueueRecv
    | CheckBusy                   // enqueueRecv returns: the counter is positive
    | CheckFree                   // enqueueRecv goes on
    | Increment
    | HandOver                    // to the thread pool
    | Begin(timer: bool)          // doRecv takes the mutex and decrements the counter
    | Look                        // doRecv reads the state
    | Pop                         // one message processed
    | FoundEmpty                  // the queue is empty
    | Leave(timer: bool)          // doRecv returns, having possibly scheduled a timer
    | Finish                      // the loop ends or throws: disconnected or failed
    | StartUp(timer: bool)        // start changes the state; `timer` tells what handleTimeout will find
    | Arm                         // ... and schedules the call

  predicate Enabled(w: World, a: Action) {
    match a
    case Push(_) => !w.stopped
    case Stop => true
    case SilentStop => true
    case CheckBusy => w.entering > 0 && w.count > 0
    case CheckFree => w.entering > 0 && w.count <= 0
    case Increment => w.checked > 0
    case HandOver => w.about > 0
    case Begin(timer) => w.holder == Nobody && (if timer then w.timers > 0 else w.due > 0)
    case Look => w.holder == Looking
    case Pop => w.holder == Draining && w.queue != []
    case FoundEmpty => w.holder == Draining && w.queue == [] && !w.stopped
    case Leave(_) => w.holder == Leaving
    case Finish => w.holder == Draining || w.holder == Leaving
    case StartUp(_) => w.phase == Idle
    case Arm => w.arming
  }

  function Do(w: World, a: Action): World
    requires Enabled(w, a)
  {
    match a
    case Push(m) => w.(queue := w.queue + [m], pushed := w.pushed + [m], entering := w.entering + 1)
    case Stop => w.(stopped := true, entering := w.entering + 1)
    case SilentStop => w.(stopped := true)
    case CheckBusy => w.(entering := w.entering - 1)
    case CheckFree => w.(entering := w.entering - 1, checked := w.checked + 1)
    case Increment => w.(checked := w.checked - 1, about := w.about + 1, count := w.count + 1)
    case HandOver => w.(about := w.about - 1, due := w.due + 1)
    case Begin(timer) =>
      w.(count := w.count - 1, holder := Looking,
         due := if timer then w.due else w.due - 1, timers := if timer then w.timers - 1 else w.timers)
    case Look => w.(holder := if w.phase == Live then Draining else Nobody)
    case Pop => w.(queue := w.queue[1..], drained := w.drained + [w.queue[0]])
    case FoundEmpty => w.(holder := Leaving)
    case Leave(timer) => w.(holder := Nobody, timers := w.timers + (if timer then 1 else 0))
    case Finish => w.(holder := Nobody, phase := Over)
    case StartUp(timer) => w.(phase := Live, arming := timer)
    case Arm => w.(arming := false, timers := w.timers + 1)
  }

  ghost predicate IsRun(actions: seq<Action>, worlds: seq<World>) {
    && |worlds| == |actions| + 1
    && forall i :: 0 <= i < |actions| ==>
         Enabled(worlds[i], actions[i]) && worlds[i + 1] == Do(worlds[i], actions[i])
  }

  /** A drain is under way, or scheduled, or somebody is on the way to cause one. */
  predicate DrainToCome(w: World) {
    || w.holder == Looking || w.holder == Draining
    || w.due > 0 || w.timers > 0 || w.arming
    || w.about > 0 || w.checked > 0 || w.entering > 0
  }

  /** No message waits without a drain to come. */
  predicate Awake(w: World) {
    w.phase == Live && w.queue != [] ==> DrainToCome(w)
  }

  /** The counter is covered by doRecv calls that are due or about to be, and nothing is lost or reordered. */
  predicate Covered(w: World) {
    && w.count <= w.due + w.about
    && (w.holder == Draining || w.holder == Leaving ==> w.phase == Live)
    && (w.arming ==> w.phase != Idle)
    && w.pushed == w.drained + w.queue
  }

  lemma StepKeepsCovered(w: World, a: Action)
    requires Covered(w) && Enabled(w, a)
    ensures Covered(Do(w, a))
  {
    if a.Pop? {
      assert w.queue == [w.queue[0]] + w.queue[1..];
    }
  }

  /** Every step but the start-up keeps all messages awake. */
  lemma StepKeepsAwake(w: World, a: Action)
    requires Covered(w) && Awake(w) && Enabled(w, a) && !a.StartUp?
    ensures Awake(Do(w, a))
  {
  }

  /** What `start` must find when it changes the state: no message, a drain to come, or a timer to set. */
  predicate NothingStranded(w: World, timer: bool) {
    w.queue == [] || DrainToCome(w) || timer
  }

  lemma StartUpKeepsAwakeIff(w: World, timer: bool)
    requires Covered(w) && Enabled(w, StartUp(timer))
    ensures Awake(Do(w, StartUp(timer))) <==> NothingStranded(w, timer)
  {
  }

  /** The start-ups of the run leave no message behind. */
  ghost predicate CleanStart(actions: seq<Action>, worlds: seq<World>)
    requires |worlds| == |actions| + 1
  {
    forall i :: 0 <= i < |actions| && actions[i].StartUp? ==> NothingStranded(worlds[i], actions[i].timer)
  }

  lemma {:induction false} EveryWorld(actions: seq<Action>, worlds: seq<World>, i: nat)
    requires IsRun(actions, worlds) && worlds[0] == Initial && i < |worlds|
    ensures Covered(worlds[i])
    ensures CleanStart(actions, worlds) ==> Awake(worlds[i])
    decreases i
  {
    if i > 0 {
      EveryWorld(actions, worlds, i - 1);
      var w, a := worlds[i - 1], actions[i - 1];
      StepKeepsCovered(w, a);
      if CleanStart(actions, worlds) {
        if a.StartUp? {
          StartUpKeepsAwakeIff(w, a.timer);
        } else {
          StepKeepsAwake(w, a);
        }
      }
    }
  }

  /**
    No lost wake-up: in every interleaving every queued message has a drain to come, if and only
    if no start-up without a timer finds a message in the queue that nobody is going to drain.
   */
  lemma NoLostWakeUp(actions: seq<Action>, worlds: seq<World>)
    requires IsRun(actions, worlds) && worlds[0] == Initial
    ensures (forall i :: 0 <= i < |worlds| ==> Awake(worlds[i])) <==> CleanStart(actions, worlds)
    ensures forall i :: 0 <= i < |worlds| ==> worlds[i].count <= worlds[i].due + worlds[i].about
    ensures forall i :: 0 <= i < |worlds| ==> worlds[i].pushed == worlds[i].drained + worlds[i].queue
  {
    forall i | 0 <= i < |worlds|
      ensures Covered(worlds[i]) && (CleanStart(actions, worlds) ==> Awake(worlds[i]))
    {
      EveryWorld(actions, worlds, i);
    }
    if !CleanStart(actions, worlds) {
      var i :| 0 <= i < |actions| && actions[i].StartUp? && !NothingStranded(worlds[i], actions[i].timer);
      StartUpKeepsAwakeIff(worlds[i], actions[i].timer);
      assert !Awake(worlds[i + 1]);
    }
  }

  /**
    The exception is real for a side whose `start` sets no timer: `start` registers for incoming
    messages before it changes the state, and a drain that runs in between returns without
    looking at the queue.  With a timer the same message waits until that fires.
   */
  lemma StrandedMessage(timer: bool) returns (actions: seq<Action>, worlds: seq<World>)
    ensures IsRun(actions, worlds) && worlds[0] == Initial
    ensures worlds[|worlds| - 1].queue == [7]
    ensures Awake(worlds[|worlds| - 1]) <==> timer
  {
    var w1 := Do(Initial, Push(7));
    var w2 := Do(w1, CheckFree);
    var w3 := Do(w2, Increment);
    var w4 := Do(w3, HandOver);
    var w5 := Do(w4, Begin(false));
    var w6 := Do(w5, Look);
    var w7 := Do(w6, StartUp(timer));
    actions, worlds := [], [w7];
    assert IsRun(actions, worlds);
    assert w7.queue == [7] && (Awake(w7) <==> timer);
    hide IsRun, Do, Enabled;
    actions, worlds := Preceded(StartUp(timer), w6, actions, worlds);
    actions, worlds := Preceded(Look, w5, actions, worlds);
    actions, worlds := Preceded(Begin(false), w4, actions, worlds);
    actions, worlds := Preceded(HandOver, w3, actions, worlds);
    actions, worlds := Preceded(Increment, w2, actions, worlds);
    actions, worlds := Preceded(CheckFree, w1, actions, worlds);
    actions, worlds := Preceded(Push(7), Initial, actions, worlds);
  }

  lemma Preceded(a: Action, w: World, actions: seq<Action>, worlds: seq<World>)
    returns (actions': seq<Action>, worlds': seq<World>)
    requires IsRun(actions, worlds) && Enabled(w, a) && worlds[0] == Do(w, a)
    ensures IsRun(actions', worlds') && worlds'[0] == w && worlds'[|worlds'| - 1] == worlds[|worlds| - 1]
  {
    RunCons(a, w, actions, worlds);
    actions', worlds' := [a] + actions, [w] + worlds;
  }

  // ---------------------------------------------------------------- the drain does come

  /** How far the next drain is away. */
  function Distance(w: World): nat {
    match w.holder
    case Draining => 0
    case Looking => 1
    case Nobody =>
      if w.due > 0 || w.timers > 0 then 2
      else if w.about > 0 || w.arming then 3
      else if w.checked > 0 then 4
      else 5
    case Leaving => 6
  }

  function NextStep(w: World): Action
    requires w.queue != [] && DrainToCome(w)
  {
    match w.holder
    case Draining => Pop
    case Looking => Look
    case Leaving => Leave(false)
    case Nobody =>
      if w.due > 0 then Begin(false)
      else if w.timers > 0 then Begin(true)
      else if w.about > 0 then HandOver
      else if w.arming then Arm
      else if w.checked > 0 then Increment
      else CheckFree
  }

  /** From any awake world the threads and timers that exist drain the queue without further input. */
  lemma {:induction false} QueueGetsDrained(w: World) returns (actions: seq<Action>, worlds: seq<World>)
    requires Covered(w) && Awake(w) && w.phase == Live
    ensures IsRun(actions, worlds) && worlds[0] == w
    ensures worlds[|worlds| - 1].queue == [] && worlds[|worlds| - 1].drained == w.drained + w.queue
    decreases |w.queue|, Distance(w)
  {
    if w.queue == [] {
      actions, worlds := [], [w];
      assert w.drained + [] == w.drained;
    } else {
      var a := NextStep(w);
      var next := Do(w, a);
      StepKeepsCovered(w, a);
      StepKeepsAwake(w, a);
      var more, after := QueueGetsDrained(next);
      actions, worlds := [a] + more, [w] + after;
      assert next.drained + next.queue == w.drained + w.queue;
      RunCons(a, w, more, after);
    }
  }

  lemma RunCons(a: Action, w: World, actions: seq<Action>, worlds: seq<World>)
    requires IsRun(actions, worlds) && Enabled(w, a) && worlds[0] == Do(w, a)
    ensures IsRun([a] + actions, [w] + worlds)
  {
    var as', ws := [a] + actions, [w] + worlds;
    forall i | 0 <= i < |as'|
      ensures Enabled(ws[i], as'[i]) && ws[i + 1] == Do(ws[i], as'[i])
    {
      if i > 0 {
        assert as'[i] == actions[i - 1] && ws[i] == worlds[i - 1] && ws[i + 1] == worlds[i];
      }
    }
  }
}
