/** The round-robin kernel as a state machine.

    Every handler runs to completion before another one starts (SVC has a
    higher priority than SysTick), so each is one atomic step. Registering a
    task is not a handler: it runs in thread mode, so it is two steps, filling
    the slot and publishing the new count, and any number of other steps may
    come between them.

    `Wake` and `Pick` are declarative: they say which tasks wake up, which
    waiter gets the mutex and which task runs next. The loops that compute
    this are in Scheduler.dfy. */
module Kernel {
  import opened Common

  /** What the context switch saves: the process stack pointer and r4 to r7. */
  datatype Context = Context(psp: Word, r4: Word, r5: Word, r6: Word, r7: Word)

  datatype Phase = Unused | Ready | Running | Blocked | MutexBlocked

  datatype Task = Task(context: Context, phase: Phase, sleepUntil: int)

  /** `filling` holds between the two halves of a registration. */
  datatype State = State(
    tasks: seq<Task>,
    registered: nat,
    current: nat,
    jiffy: int,
    locked: bool,
    filling: bool)

  datatype Event = Tick | Sleep(ticks: int) | Yield | Lock | Unlock | Fill(sp: Word) | Publish

  ghost predicate Shape(s: State) {
    && s.current <= s.registered < |s.tasks|
    && (forall i :: 1 <= i <= s.registered ==> s.tasks[i].phase != Unused)
    && (forall i :: s.registered < i < |s.tasks| ==> s.tasks[i].phase in {Unused, Ready})
    && (s.filling ==> s.registered + 1 < |s.tasks| && s.tasks[s.registered + 1].phase == Ready)
  }

  /** The invariant of every state between two steps. */
  ghost predicate Inv(s: State) {
    && Shape(s)
    && s.tasks[s.current].phase == Running
    && (forall i :: 0 <= i < |s.tasks| && i != s.current ==> s.tasks[i].phase != Running)
    && (s.current != 0 ==> s.tasks[0].phase == Ready)
  }

  /** The running task has given up the processor; nobody runs. */
  ghost predicate Suspended(s: State) {
    && Shape(s)
    && (forall i :: 0 <= i < |s.tasks| ==> s.tasks[i].phase != Running)
    && s.tasks[0].phase == Ready
  }

  /** The state that `scheduler_init` leaves. */
  function Init(blank: seq<Task>): State
    requires |blank| > 0
  {
    State(blank[0 := blank[0].(phase := Running)], 0, 0, 0, false, false)
  }

  // ---- Waking up ----------------------------------------------------------

  ghost predicate IsRegistered(s: State, i: int) {
    1 <= i <= s.registered < |s.tasks|
  }

  ghost predicate Waits(s: State, i: int) {
    IsRegistered(s, i) && s.tasks[i].phase == MutexBlocked
  }

  ghost predicate Expired(s: State, i: int) {
    IsRegistered(s, i) && s.tasks[i].phase == Blocked && s.jiffy > s.tasks[i].sleepUntil
  }

  /** A free mutex goes to the waiter with the least index, and to no other. */
  ghost predicate Granted(s: State, i: int) {
    !s.locked && Waits(s, i) && forall j :: 1 <= j < i ==> !Waits(s, j)
  }

  ghost function WakeTask(s: State, i: nat): Task
    requires i < |s.tasks|
  {
    if Expired(s, i) || Granted(s, i) then s.tasks[i].(phase := Ready) else s.tasks[i]
  }

  ghost function Wake(s: State): (w: State)
    requires s.registered < |s.tasks|
    ensures Suspended(s) ==> Suspended(w)
  {
    s.(tasks := seq(|s.tasks|, i requires 0 <= i < |s.tasks| => WakeTask(s, i)),
       locked := s.locked || exists i :: Waits(s, i))
  }

  // ---- Choosing the next task ---------------------------------------------

  /** How many places after `from` the task `to` is in the cyclic order of
      1..n. Idle counts as position 0, in front of task 1. */
  function Distance(n: nat, from: nat, to: nat): int {
    if to > from then to - from else n - from + to
  }

  function ReadyCandidates(tasks: seq<Task>, n: nat, from: nat): (r: set<nat>)
    requires n < |tasks|
    ensures 0 !in r
  {
    set t: nat | 1 <= t <= n && t != from && tasks[t].phase == Ready
  }

  /** `next` is the first ready task after `from` in cyclic order, `from`
      excluded; idle when there is none. */
  ghost predicate IsPick(tasks: seq<Task>, n: nat, from: nat, next: nat)
    requires n < |tasks|
  {
    var ready := ReadyCandidates(tasks, n, from);
    if ready == {} then next == 0
    else next in ready && forall t :: t in ready ==> Distance(n, from, next) <= Distance(n, from, t)
  }

  lemma {:induction false} Nearest(n: nat, from: nat, ready: set<nat>) returns (next: nat)
    requires ready != {}
    ensures next in ready && forall t :: t in ready ==> Distance(n, from, next) <= Distance(n, from, t)
  {
    var first :| first in ready;
    var rest := ready - {first};
    next := first;
    if rest != {} {
      var other := Nearest(n, from, rest);
      if Distance(n, from, other) < Distance(n, from, first) {
        next := other;
      }
    }
    forall t | t in ready ensures Distance(n, from, next) <= Distance(n, from, t) {
      if t != first {
        assert t in rest;
      }
    }
  }

  /** The specification of the scan names exactly one task. */
  lemma PickExistsOnce(tasks: seq<Task>, n: nat, from: nat)
    requires from <= n < |tasks|
    ensures exists next :: IsPick(tasks, n, from, next)
    ensures forall p, q :: IsPick(tasks, n, from, p) && IsPick(tasks, n, from, q) ==> p == q
  {
    var ready := ReadyCandidates(tasks, n, from);
    if ready == {} {
      assert IsPick(tasks, n, from, 0);
    } else {
      var next := Nearest(n, from, ready);
      assert IsPick(tasks, n, from, next);
    }
  }

  ghost function Pick(tasks: seq<Task>, n: nat, from: nat): (next: nat)
    requires from <= n < |tasks|
    ensures IsPick(tasks, n, from, next)
  {
    PickExistsOnce(tasks, n, from);
    var next :| IsPick(tasks, n, from, next);
    next
  }

  /** The order of the round: behind a running task come the tasks after it, then
      those before it; in front of task 1 stands idle. */
  lemma NextInOrder(tasks: seq<Task>, n: nat, from: nat, next: nat)
    requires from <= n < |tasks| && IsPick(tasks, n, from, next)
    ensures next <= n && (next > 0 ==> tasks[next].phase == Ready && next != from)
    ensures from < next ==> forall t :: from < t < next ==> tasks[t].phase != Ready
    ensures 0 < next <= from ==>
      && next < from
      && (forall t :: from < t <= n ==> tasks[t].phase != Ready)
      && (forall t :: 1 <= t < next ==> tasks[t].phase != Ready)
    ensures next == 0 ==> forall t :: 1 <= t <= n && t != from ==> tasks[t].phase != Ready
  {
    var ready := ReadyCandidates(tasks, n, from);
    forall t | 1 <= t <= n && t != from && tasks[t].phase == Ready
      ensures t in ready
    {
    }
  }

  // ---- Steps --------------------------------------------------------------

  function SetPhase(s: State, i: nat, phase: Phase): State
    requires i < |s.tasks|
  {
    s.(tasks := s.tasks[i := s.tasks[i].(phase := phase)])
  }

  ghost function Dispatch(s: State): (r: State)
    requires Suspended(s)
    ensures Inv(r)
  {
    var w := if s.registered == 0 then s else Wake(s);
    var next := if s.registered == 0 then 0 else Pick(w.tasks, w.registered, w.current);
    SetPhase(w, next, Running).(current := next)
  }

  lemma DispatchTo(s: State, w: State, next: nat)
    requires Suspended(s) && next <= s.registered
    requires w == if s.registered == 0 then s else Wake(s)
    requires next == if s.registered == 0 then 0 else Pick(w.tasks, s.registered, s.current)
    ensures Dispatch(s) == SetPhase(w, next, Running).(current := next)
  {
  }

  /** What a client may do: idle neither sleeps nor locks, and one task is
      registered at a time. */
  predicate Enabled(s: State, e: Event) {
    match e
    case Sleep(_) => s.current != 0
    case Lock => s.current != 0
    case Fill(_) => !s.filling
    case Publish => s.filling
    case _ => true
  }

  /** The steps that choose a task to run. */
  predicate IsDispatch(s: State, e: Event) {
    e.Tick? || e.Sleep? || e.Yield? || (e.Lock? && s.locked)
  }

  /** The running task, as a dispatching step leaves it. */
  function Leaving(s: State, e: Event): Task
    requires s.current < |s.tasks|
  {
    var task := s.tasks[s.current];
    match e
    case Sleep(ticks) => task.(phase := Blocked, sleepUntil := s.jiffy + ticks)
    case Lock => task.(phase := MutexBlocked)
    case _ => task.(phase := Ready)
  }

  /** The state in which a dispatching step looks for the next task. */
  ghost function GiveUp(s: State, e: Event): (r: State)
    requires Inv(s) && Enabled(s, e)
    ensures Suspended(r)
  {
    s.(tasks := s.tasks[s.current := Leaving(s, e)], jiffy := if e.Tick? then s.jiffy + 1 else s.jiffy)
  }

  ghost function Step(s: State, e: Event): (r: State)
    requires Inv(s) && Enabled(s, e)
    ensures Inv(r)
  {
    if IsDispatch(s, e) then Dispatch(GiveUp(s, e))
    else
      match e
      case Lock => s.(locked := true)
      case Unlock => s.(locked := false)
      case Fill(sp) =>
        var tid := s.registered + 1;
        if tid >= |s.tasks| then s
        else
          var task := s.tasks[tid];
          s.(tasks := s.tasks[tid := task.(context := task.context.(psp := sp), phase := Ready)], filling := true)
      case Publish => s.(registered := s.registered + 1, filling := false)
  }

  // ---- Runs ---------------------------------------------------------------

  /** A run: the first state satisfies the invariant, and `states[i + 1]` is
      what event i makes of `states[i]`. That the invariant holds later on,
      without which a step is not defined, is proved in RunInv. */
  ghost predicate IsRun(states: seq<State>, events: seq<Event>) {
    && |states| == |events| + 1
    && Inv(states[0])
    && forall i :: 0 <= i < |events| ==> StepAt(states, events, i)
  }

  ghost predicate StepAt(states: seq<State>, events: seq<Event>, i: nat)
    requires i < |events| < |states|
  {
    Inv(states[i]) ==>
      && Enabled(states[i], events[i])
      && states[i + 1] == Step(states[i], events[i])
  }

  lemma InitInv(blank: seq<Task>)
    requires |blank| > 0 && forall i :: 0 <= i < |blank| ==> blank[i].phase == Unused
    ensures Inv(Init(blank))
  {
  }

  /** What a dispatching step makes of one task. */
  lemma DispatchedTask(s: State, e: Event, t: nat)
    requires Inv(s) && Enabled(s, e) && IsDispatch(s, e) && t < |s.tasks|
    ensures var g, r := GiveUp(s, e), Step(s, e);
            && r.tasks[t] == (if t == r.current then WakeTask(g, t).(phase := Running) else WakeTask(g, t))
            && (t == r.current ==> WakeTask(g, t).phase == Ready)
            && (r.locked <==> g.locked || exists i :: Waits(g, i))
  {
    var g := GiveUp(s, e);
    assert Wake(g).tasks[t] == WakeTask(g, t);
  }

  lemma StepFrame(s: State, e: Event)
    requires Inv(s) && Enabled(s, e)
    ensures Inv(Step(s, e))
    ensures |Step(s, e).tasks| == |s.tasks|
    ensures Step(s, e).registered == s.registered + (if e.Publish? then 1 else 0)
    ensures Step(s, e).jiffy == s.jiffy + (if e.Tick? then 1 else 0)
  {
  }

  /** The invariant holds in every state of every run, between the two halves
      of a registration too; the table does not move, the clock does not go
      back and no task is unregistered. */
  lemma {:induction false} RunInv(states: seq<State>, events: seq<Event>, i: nat, k: nat)
    requires IsRun(states, events) && i <= k <= |events|
    ensures Inv(states[i]) && Inv(states[k])
    ensures |states[i].tasks| == |states[k].tasks|
    ensures states[i].registered <= states[k].registered
    ensures states[i].jiffy <= states[k].jiffy
    decreases k
  {
    if 0 < k {
      RunInv(states, events, if i < k then i else k - 1, k - 1);
      assert StepAt(states, events, k - 1);
      StepFrame(states[k - 1], events[k - 1]);
    }
  }
}
