/** No starvation and bounded sleep, over every run of the kernel. */
module Fairness {
  import opened Kernel

  ghost predicate ReadyToRun(s: State, t: nat) {
    IsRegistered(s, t) && s.tasks[t].phase == Ready && s.current != t
  }

  /** A task that is ready once the sleepers are awake is chosen, or comes
      strictly nearer to being chosen. `n` bounds the number of tasks, now and
      later. */
  lemma DispatchApproaches(s: State, t: nat, n: nat)
    requires Suspended(s) && IsRegistered(s, t) && t != s.current && s.registered <= n
    requires Wake(s).tasks[t].phase == Ready
    ensures Dispatch(s).current != t ==>
              && ReadyToRun(Dispatch(s), t)
              && Dispatch(s).current != 0
              && Distance(n, Dispatch(s).current, t) < Distance(n, s.current, t)
  {
    var w := Wake(s);
    var next := Pick(w.tasks, w.registered, w.current);
    assert t in ReadyCandidates(w.tasks, w.registered, w.current);
  }

  lemma StepApproaches(s: State, e: Event, t: nat, n: nat)
    requires Inv(s) && Enabled(s, e) && ReadyToRun(s, t) && Step(s, e).registered <= n
    ensures Step(s, e).current != t ==>
              && ReadyToRun(Step(s, e), t)
              && Distance(n, Step(s, e).current, t) <= Distance(n, s.current, t) - (if IsDispatch(s, e) then 1 else 0)
  {
    if IsDispatch(s, e) {
      DispatchApproaches(GiveUp(s, e), t, n);
    }
  }

  ghost function Dispatches(states: seq<State>, events: seq<Event>, i: nat, j: nat): nat
    requires i <= j <= |events| < |states|
    decreases j - i
  {
    if i == j then 0
    else (if IsDispatch(states[i], events[i]) then 1 else 0) + Dispatches(states, events, i + 1, j)
  }

  /** A ready task stays ready until it runs, and runs after at most as many
      dispatches as its distance from the running task, whatever these
      dispatches are and even while more tasks are being registered. */
  lemma {:induction false} ReadyTaskRuns(states: seq<State>, events: seq<Event>, i: nat, j: nat, t: nat) returns (m: nat)
    requires IsRun(states, events) && i <= j <= |events|
    requires ReadyToRun(states[i], t)
    requires Dispatches(states, events, i, j) >= Distance(states[j].registered, states[i].current, t)
    ensures i < m <= j && states[m].current == t
    ensures forall k :: i <= k < m ==> ReadyToRun(states[k], t)
    ensures Dispatches(states, events, i, m) <= Distance(states[j].registered, states[i].current, t)
    decreases j - i
  {
    RunInv(states, events, i, j);
    assert i < j;
    RunInv(states, events, i + 1, j);
    assert StepAt(states, events, i);
    StepApproaches(states[i], events[i], t, states[j].registered);
    if states[i + 1].current == t {
      m := i + 1;
    } else {
      m := ReadyTaskRuns(states, events, i + 1, j, t);
    }
  }

  /** The scheduler is starvation free: a ready task runs within n dispatches,
      n being the number of tasks. */
  lemma NoStarvation(states: seq<State>, events: seq<Event>, i: nat, j: nat, t: nat)
    requires IsRun(states, events) && i <= j <= |events|
    requires ReadyToRun(states[i], t)
    requires Dispatches(states, events, i, j) >= states[j].registered
    ensures exists m :: i < m <= j && states[m].current == t
  {
    RunInv(states, events, i, j);
    var m := ReadyTaskRuns(states, events, i, j, t);
  }

  /** A task that is preempted or yields runs again within n + 1 dispatches,
      the one that took the processor from it included. */
  lemma NoStarvationAfterPreemption(states: seq<State>, events: seq<Event>, i: nat, j: nat, t: nat)
    requires IsRun(states, events) && i < j <= |events|
    requires states[i].current == t && t != 0 && (events[i].Tick? || events[i].Yield?)
    requires Dispatches(states, events, i, j) >= states[j].registered + 1
    ensures exists m :: i < m <= j && states[m].current == t
  {
    hide Step, Inv;
    RunInv(states, events, i, i);
    assert StepAt(states, events, i);
    LeavesReady(states[i], events[i]);
    assert Dispatches(states, events, i, j) == 1 + Dispatches(states, events, i + 1, j);
    NoStarvation(states, events, i + 1, j, t);
  }

  lemma LeavesReady(s: State, e: Event)
    requires Inv(s) && Enabled(s, e) && s.current != 0 && (e.Tick? || e.Yield?)
    ensures ReadyToRun(Step(s, e), s.current)
  {
    var g := GiveUp(s, e);
    assert Wake(g).tasks[s.current] == WakeTask(g, s.current);
  }

  // ---- Sleep --------------------------------------------------------------

  ghost predicate Asleep(s: State, t: nat, until: int) {
    IsRegistered(s, t) && s.tasks[t].phase == Blocked && s.tasks[t].sleepUntil == until && s.current != t
  }

  lemma FallsAsleep(s: State, ticks: int)
    requires Inv(s) && s.current != 0
    ensures ticks >= 0 ==> Asleep(Step(s, Sleep(ticks)), s.current, s.jiffy + ticks)
    ensures ticks < 0 ==> ReadyToRun(Step(s, Sleep(ticks)), s.current)
  {
    var g := GiveUp(s, Sleep(ticks));
    assert Wake(g).tasks[s.current] == WakeTask(g, s.current);
  }

  /** A sleeper sleeps on while the clock has not passed its deadline; the
      tick that passes it makes the sleeper run or puts it in the queue. */
  lemma SleepsOn(s: State, e: Event, t: nat, until: int, n: nat)
    requires Inv(s) && Enabled(s, e) && Asleep(s, t, until) && s.jiffy <= until && Step(s, e).registered <= n
    ensures Step(s, e).jiffy <= until ==> Asleep(Step(s, e), t, until)
    ensures Step(s, e).jiffy > until && Step(s, e).current != t ==>
              ReadyToRun(Step(s, e), t) && Distance(n, Step(s, e).current, t) < n
  {
    if IsDispatch(s, e) {
      var g := GiveUp(s, e);
      assert Wake(g).tasks[t] == WakeTask(g, t);
      if g.jiffy > until {
        DispatchApproaches(g, t, n);
      }
    }
  }

  lemma {:induction false} StaysAsleep(states: seq<State>, events: seq<Event>, i: nat, k: nat, t: nat, until: int)
    requires IsRun(states, events) && i <= k <= |events|
    requires Asleep(states[i], t, until) && states[k].jiffy <= until
    ensures Asleep(states[k], t, until)
    decreases k - i
  {
    if i < k {
      assert StepAt(states, events, i);
      RunInv(states, events, i, i + 1);
      RunInv(states, events, i + 1, k);
      SleepsOn(states[i], events[i], t, until, states[i + 1].registered);
      StaysAsleep(states, events, i + 1, k, t, until);
    }
  }

  /** A task that calls sleep(ticks) at jiffy j does not run before jiffy
      j + ticks + 1. */
  lemma SleepsLongEnough(states: seq<State>, events: seq<Event>, i: nat, k: nat, ticks: int)
    requires IsRun(states, events) && i < k <= |events|
    requires events[i] == Sleep(ticks)
    requires states[k].jiffy <= states[i].jiffy + ticks
    ensures Asleep(states[k], states[i].current, states[i].jiffy + ticks)
  {
    assert StepAt(states, events, i);
    RunInv(states, events, i, k);
    FallsAsleep(states[i], ticks);
    StaysAsleep(states, events, i + 1, k, states[i].current, states[i].jiffy + ticks);
  }

  /** What is left of the bound, once the task is awake: every tick brings it
      nearer, and other dispatches do not make it later. */
  lemma {:induction false} ReadyTaskRunsInTime(states: seq<State>, events: seq<Event>, i: nat, k: nat, t: nat, deadline: int)
    returns (m: nat)
    requires IsRun(states, events) && i <= k <= |events|
    requires ReadyToRun(states[i], t)
    requires states[i].jiffy + Distance(states[k].registered, states[i].current, t) <= deadline <= states[k].jiffy
    ensures i < m <= k && states[m].current == t && states[m].jiffy <= deadline
    decreases k - i
  {
    RunInv(states, events, i, k);
    assert i < k;
    RunInv(states, events, i + 1, k);
    assert StepAt(states, events, i);
    StepApproaches(states[i], events[i], t, states[k].registered);
    if states[i + 1].current == t {
      m := i + 1;
    } else {
      m := ReadyTaskRunsInTime(states, events, i + 1, k, t, deadline);
    }
  }

  lemma {:induction false} SleeperRunsInTime(states: seq<State>, events: seq<Event>, i: nat, k: nat, t: nat, until: int)
    returns (m: nat)
    requires IsRun(states, events) && i <= k <= |events|
    requires Asleep(states[i], t, until) && states[i].jiffy <= until
    requires until + states[k].registered <= states[k].jiffy
    ensures i < m <= k && states[m].current == t && states[m].jiffy <= until + states[k].registered
    decreases k - i
  {
    RunInv(states, events, i, k);
    assert i < k;
    RunInv(states, events, i + 1, k);
    assert StepAt(states, events, i);
    SleepsOn(states[i], events[i], t, until, states[k].registered);
    if states[i + 1].jiffy <= until {
      m := SleeperRunsInTime(states, events, i + 1, k, t, until);
    } else if states[i + 1].current == t {
      m := i + 1;
    } else {
      m := ReadyTaskRunsInTime(states, events, i + 1, k, t, until + states[k].registered);
    }
  }

  /** A task that calls sleep(ticks) at jiffy j runs again at the latest by the
      tick that makes the clock j + ticks + n, n being the number of tasks. A
      negative time counts as zero. */
  lemma SleepIsBounded(states: seq<State>, events: seq<Event>, i: nat, k: nat, ticks: int)
    requires IsRun(states, events) && i < k <= |events|
    requires events[i] == Sleep(ticks)
    requires states[k].jiffy >= states[i].jiffy + (if ticks < 0 then 0 else ticks) + states[k].registered
    ensures exists m :: i < m <= k && states[m].current == states[i].current
              && states[m].jiffy <= states[i].jiffy + (if ticks < 0 then 0 else ticks) + states[k].registered
  {
    RunInv(states, events, i, i + 1);
    RunInv(states, events, i + 1, k);
    assert StepAt(states, events, i);
    FallsAsleep(states[i], ticks);
    if ticks >= 0 {
      var m := SleeperRunsInTime(states, events, i + 1, k, states[i].current, states[i].jiffy + ticks);
    } else {
      var m := ReadyTaskRunsInTime(states, events, i + 1, k, states[i].current, states[i].jiffy + states[k].registered);
    }
  }
}
