/**
  The in-order task processor (src/impl/processor.hpp, src/impl/processor.cpp) over a thread
  pool that runs what it is given in any order.
 */
module Processor {

  type Task = nat

  // ---------------------------------------------------------------- the object

  /** What `enqueue` and `schedule` do to the flag and the queue, and what they give to the pool. */
  datatype Effect = Effect(pending: bool, tasks: seq<Task>, handed: seq<Task>)

  function EnqueueEffect(pending: bool, tasks: seq<Task>, t: Task): Effect {
    if pending then Effect(true, tasks + [t], []) else Effect(true, tasks, [t])
  }

  function ScheduleEffect(pending: bool, tasks: seq<Task>): Effect {
    if tasks == [] then Effect(false, [], []) else Effect(pending, tasks[1..], [tasks[0]])
  }

  class Processor {
    var pending: bool
    var tasks: seq<Task>

    constructor ()
      ensures !pending && tasks == []
    {
      pending, tasks := false, [];
    }

    /** Returns what is handed to the pool, if anything. */
    method Enqueue(t: Task) returns (handed: seq<Task>)
      modifies this
      ensures Effect(pending, tasks, handed) == EnqueueEffect(old(pending), old(tasks), t)
    {
      if !pending {
        handed := [t];
        pending := true;
      } else {
        handed := [];
        tasks := tasks + [t];
      }
    }

    /** Run by the scope guard of a task that has returned. */
    method Schedule() returns (handed: seq<Task>)
      modifies this
      ensures Effect(pending, tasks, handed) == ScheduleEffect(old(pending), old(tasks))
    {
      if tasks != [] {
        handed := [tasks[0]];
        tasks := tasks[1..];
      } else {
        handed := [];
        pending := false;
      }
    }
  }

  // ---------------------------------------------------------------- every interleaving

  /** The processor together with the pool, the workers and what has happened so far. */
  datatype World = World(
    pending: bool, tasks: seq<Task>,
    pool: multiset<Task>,      // handed to the pool, not started
    running: multiset<Task>,   // body being executed
    closing: multiset<Task>,   // body returned, guard not yet run
    enqueued: seq<Task>, started: seq<Task>, finished: seq<Task>)

  const Initial := World(false, [], multiset{}, multiset{}, multiset{}, [], [], [])

  datatype Action = Enqueue(t: Task) | StartTask(t: Task) | FinishTask(t: Task) | RunGuard(t: Task)

  predicate Enabled(w: World, a: Action) {
    match a
    case Enqueue(_) => true
    case StartTask(t) => t in w.pool
    case FinishTask(t) => t in w.running
    case RunGuard(t) => t in w.closing
  }

  function Do(w: World, a: Action): World
    requires Enabled(w, a)
  {
    match a
    case Enqueue(t) =>
      var e := EnqueueEffect(w.pending, w.tasks, t);
      w.(pending := e.pending, tasks := e.tasks, pool := w.pool + multiset(e.handed), enqueued := w.enqueued + [t])
    case StartTask(t) =>
      w.(pool := w.pool - multiset{t}, running := w.running + multiset{t}, started := w.started + [t])
    case FinishTask(t) =>
      w.(running := w.running - multiset{t}, closing := w.closing + multiset{t}, finished := w.finished + [t])
    case RunGuard(t) =>
      var e := ScheduleEffect(w.pending, w.tasks);
      w.(pending := e.pending, tasks := e.tasks, pool := w.pool + multiset(e.handed), closing := w.closing - multiset{t})
  }

  ghost predicate IsRun(actions: seq<Action>, worlds: seq<World>) {
    && |worlds| == |actions| + 1
    && worlds[0] == Initial
    && forall i :: 0 <= i < |actions| ==>
         Enabled(worlds[i], actions[i]) && worlds[i + 1] == Do(worlds[i], actions[i])
  }

  /** Nothing handed out, or the guard of the last one still to run. */
  predicate Between(w: World) {
    w.pool == multiset{} && w.running == multiset{} && w.started == w.finished && w.enqueued == w.started + w.tasks
  }

  predicate Waiting(w: World, t: Task) {
    w.pool == multiset{t} && w.started == w.finished && w.enqueued == w.started + [t] + w.tasks
  }

  predicate Executing(w: World, t: Task) {
    w.running == multiset{t} && w.started == w.finished + [t] && w.enqueued == w.started + w.tasks
  }

  /** At most one task is in the pool's hands, and the logs line up in enqueue order. */
  ghost predicate Inv(w: World) {
    && |w.pool| + |w.running| + |w.closing| == (if w.pending then 1 else 0)
    && (w.tasks != [] ==> w.pending)
    && (Between(w) || (exists t :: Waiting(w, t)) || (exists t :: Executing(w, t)))
  }

  lemma Single(m: multiset<Task>, t: Task)
    requires t in m && |m| <= 1
    ensures m == multiset{t}
  {
    assert m == multiset{t} + (m - multiset{t});
    assert |m - multiset{t}| == 0;
  }

  lemma EnqueueIdleKeeps(w: World, t: Task)
    requires Inv(w) && !w.pending
    ensures Inv(Do(w, Enqueue(t)))
  {
    var w' := Do(w, Enqueue(t));
    assert w'.enqueued == w'.started + [t] + w'.tasks;
    assert Waiting(w', t);
  }

  lemma EnqueueBusyLogs(w: World, t: Task)
    requires w.pending
    ensures var w' := Do(w, Enqueue(t));
            && (Between(w) ==> Between(w'))
            && (forall u :: Waiting(w, u) ==> Waiting(w', u))
            && (forall u :: Executing(w, u) ==> Executing(w', u))
  {
    var w' := Do(w, Enqueue(t));
    assert w.started + (w.tasks + [t]) == w.started + w.tasks + [t];
    forall u
      ensures w.started + [u] + (w.tasks + [t]) == w.started + [u] + w.tasks + [t]
    {
    }
  }

  lemma EnqueueBusyKeeps(w: World, t: Task)
    requires Inv(w) && w.pending
    ensures Inv(Do(w, Enqueue(t)))
  {
    EnqueueBusyLogs(w, t);
    hide Between, Waiting, Executing;
  }

  lemma StartKeeps(w: World, t: Task)
    requires Inv(w) && t in w.pool
    ensures Inv(Do(w, StartTask(t)))
  {
    Single(w.pool, t);
    var w' := Do(w, StartTask(t));
    assert w'.running == multiset{t};
    assert Executing(w', t);
  }

  lemma FinishKeeps(w: World, t: Task)
    requires Inv(w) && t in w.running
    ensures Inv(Do(w, FinishTask(t)))
  {
    Single(w.running, t);
  }

  lemma GuardKeeps(w: World, t: Task)
    requires Inv(w) && t in w.closing
    ensures Inv(Do(w, RunGuard(t)))
  {
    Single(w.closing, t);
    var w' := Do(w, RunGuard(t));
    assert w.pool == multiset{} && w.running == multiset{};
    if w.tasks != [] {
      var u := w.tasks[0];
      assert w'.pool == multiset{u};
      assert w.tasks == [u] + w'.tasks;
      assert w'.enqueued == w'.started + [u] + w'.tasks;
      assert Waiting(w', u);
    }
  }

  lemma {:induction false} EveryWorld(actions: seq<Action>, worlds: seq<World>, i: nat)
    requires IsRun(actions, worlds) && i < |worlds|
    ensures Inv(worlds[i])
    decreases i
  {
    if i > 0 {
      EveryWorld(actions, worlds, i - 1);
      var w := worlds[i - 1];
      match actions[i - 1]
      case Enqueue(t) =>
        if w.pending {
          EnqueueBusyKeeps(w, t);
        } else {
          EnqueueIdleKeeps(w, t);
        }
      case StartTask(t) => StartKeeps(w, t);
      case FinishTask(t) => FinishKeeps(w, t);
      case RunGuard(t) => GuardKeeps(w, t);
    }
  }

  /**
    In every interleaving: one task at a time, started and finished in enqueue order; a non-empty
    queue means a pending task; `join` returns only when everything enqueued has finished; and
    as long as something has not, some worker still has a step to make.
   */
  lemma TasksRunInOrder(actions: seq<Action>, worlds: seq<World>, i: nat)
    requires IsRun(actions, worlds) && i < |worlds|
    ensures var w := worlds[i];
            && |w.running| <= 1
            && w.finished <= w.started <= w.enqueued
            && |w.started| <= |w.finished| + 1
            && (w.tasks != [] ==> w.pending)
            && (!w.pending && w.tasks == [] ==> w.finished == w.enqueued)
            && (w.finished != w.enqueued ==> w.pool != multiset{} || w.running != multiset{} || w.closing != multiset{})
  {
    EveryWorld(actions, worlds, i);
  }
}
