/** src/scheduler.c and the two routines of scheduler_s.s, over the array of
    task structures, proved to compute the steps of module Kernel. */
module Scheduler {
  import opened Common
  import opened ContextSwitch
  import opened Kernel

  const TASK_READY: bv32 := 0x2
  const TASK_RUNNING: bv32 := 0x4
  const TASK_BLOCKED: bv32 := 0x8
  const TASK_MUTEX_BLOCKED: bv32 := 0x10

  const LONG_MAX: int := 0x7fff_ffff
  const LONG_MIN: int := -0x8000_0000

  const SVC_YIELD := 0
  const SVC_SLEEP := 1
  const SVC_MUTEX_LOCK := 2
  const SVC_MUTEX_UNLOCK := 3

  /** A register read as a signed long. */
  function AsLong(w: Word): int {
    if w <= LONG_MAX then w else w - MOD32
  }

  /** What the handler does for each service number; unknown ones do nothing. */
  function SvcEvent(number: int, r0: Word): Option<Event> {
    if number == SVC_SLEEP then Some(Sleep(AsLong(r0)))
    else if number == SVC_YIELD then Some(Yield)
    else if number == SVC_MUTEX_LOCK then Some(Lock)
    else if number == SVC_MUTEX_UNLOCK then Some(Unlock)
    else None
  }

  /** The services by number. */
  lemma Services(number: int, r0: Word)
    ensures -0x8000_0000 <= AsLong(r0) < 0x8000_0000 && (AsLong(r0) == r0 || AsLong(r0) == r0 - 0x1_0000_0000)
    ensures number == 0 ==> SvcEvent(number, r0) == Some(Yield)
    ensures number == 1 ==> SvcEvent(number, r0) == Some(Sleep(AsLong(r0)))
    ensures number == 2 ==> SvcEvent(number, r0) == Some(Lock)
    ensures number == 3 ==> SvcEvent(number, r0) == Some(Unlock)
    ensures number < 0 || number > 3 ==> SvcEvent(number, r0) == None
  {
  }

  /** Idle neither sleeps nor locks, and a deadline does not overflow. */
  predicate CallAllowed(s: State, number: int, r0: Word) {
    && (number == 1 || number == 2 ==> s.current != 0)
    && (number == 1 ==> LONG_MIN <= s.jiffy + AsLong(r0) <= LONG_MAX)
  }

  datatype TaskStruct = TaskStruct(context: Context, state: bv32, sleepUntil: int)

  /** A task has one scheduling state: at most one flag is set. */
  predicate OneState(state: bv32) {
    state in {0, TASK_READY, TASK_RUNNING, TASK_BLOCKED, TASK_MUTEX_BLOCKED}
  }

  function PhaseOf(state: bv32): Phase
    requires OneState(state)
  {
    if state == TASK_READY then Ready
    else if state == TASK_RUNNING then Running
    else if state == TASK_BLOCKED then Blocked
    else if state == TASK_MUTEX_BLOCKED then MutexBlocked
    else Unused
  }

  ghost predicate AllOneState(structs: seq<TaskStruct>) {
    forall i :: 0 <= i < |structs| ==> OneState(structs[i].state)
  }

  ghost function TaskOf(t: TaskStruct): Task
    requires OneState(t.state)
  {
    Task(t.context, PhaseOf(t.state), t.sleepUntil)
  }

  ghost function TasksOf(structs: seq<TaskStruct>): (tasks: seq<Task>)
    requires AllOneState(structs)
    ensures |tasks| == |structs|
    ensures forall i :: 0 <= i < |structs| ==> tasks[i] == TaskOf(structs[i])
  {
    seq(|structs|, i requires 0 <= i < |structs| => TaskOf(structs[i]))
  }

  /** Writing one structure changes one task. */
  lemma TasksOfUpdate(structs: seq<TaskStruct>, i: nat, t: TaskStruct)
    requires AllOneState(structs) && i < |structs| && OneState(t.state)
    ensures AllOneState(structs[i := t])
    ensures TasksOf(structs[i := t]) == TasksOf(structs)[i := TaskOf(t)]
  {
  }

  /** Testing a flag with `&` is comparing the phase. */
  lemma FlagTests(state: bv32)
    requires OneState(state)
    ensures state & TASK_READY != 0 <==> PhaseOf(state) == Ready
    ensures state & TASK_BLOCKED != 0 <==> PhaseOf(state) == Blocked
    ensures state & TASK_MUTEX_BLOCKED != 0 <==> PhaseOf(state) == MutexBlocked
    ensures state == match PhaseOf(state)
                     case Unused => 0
                     case Ready => 0x2
                     case Running => 0x4
                     case Blocked => 0x8
                     case MutexBlocked => 0x10
  {
  }

  /** The loop over the tasks has woken up those below i. */
  ghost predicate WokenTo(s: State, now: State, i: nat) {
    && now == s.(tasks := now.tasks, locked := now.locked)
    && |now.tasks| == |s.tasks|
    && (forall j :: 0 <= j < |s.tasks| ==> now.tasks[j] == if j < i then WakeTask(s, j) else s.tasks[j])
    && (now.locked <==> s.locked || exists j :: Waits(s, j) && j < i)
  }

  lemma NoneWoken(s: State)
    requires Suspended(s)
    ensures WokenTo(s, s, 1)
  {
  }

  lemma AllWoken(s: State, now: State)
    requires Suspended(s) && WokenTo(s, now, s.registered + 1)
    ensures now == Wake(s)
  {
    assert now.tasks == Wake(s).tasks;
    assert forall j :: Waits(s, j) ==> j < s.registered + 1;
  }

  /** What the loop does at task i. */
  ghost function WokenAt(now: State, i: nat): State
    requires i < |now.tasks|
  {
    var t := now.tasks[i];
    if t.phase == Blocked && now.jiffy > t.sleepUntil then SetPhase(now, i, Ready)
    else if t.phase == MutexBlocked && !now.locked then SetPhase(now, i, Ready).(locked := true)
    else now
  }

  lemma WakesInOrder(s: State, now: State, i: nat)
    requires Suspended(s) && 1 <= i <= s.registered && WokenTo(s, now, i)
    ensures WokenTo(s, WokenAt(now, i), i + 1)
  {
    assert Waits(s, i) <==> s.tasks[i].phase == MutexBlocked;
    if j :| Waits(s, j) && j < i {
      assert j < i + 1;
    }
  }

  lemma ReadyFlag()
    ensures OneState(TASK_READY) && PhaseOf(TASK_READY) == Ready
  {
  }

  class Kern {
    var tasks: array<TaskStruct>
    var registeredTasks: int
    var currentTid: int
    var jiffy: int
    var mutex: int
    ghost var filling: bool
    var cpu: Context  // psp and r4 to r7 of the processor

    ghost predicate WellFormed()
      reads this, tasks
    {
      && 0 <= currentTid
      && 0 <= registeredTasks
      && AllOneState(tasks[..])
    }

    /** The state of the machine that the fields stand for. */
    ghost function Abs(): State
      reads this, tasks
      requires WellFormed()
    {
      State(TasksOf(tasks[..]), registeredTasks, currentTid, jiffy, mutex != 0, filling)
    }

    ghost predicate Valid()
      reads this, tasks
    {
      WellFormed() && Inv(Abs())
    }

    /** scheduler_init, on task structures that are still zero. */
    constructor (maxTasks: nat, blank: TaskStruct, registers: Context)
      requires maxTasks > 0 && blank.state == 0
      ensures Valid() && tasks.Length == maxTasks
      ensures Abs() == Init(seq(maxTasks, _ => Task(blank.context, Unused, blank.sleepUntil)))
      ensures cpu == registers
    {
      tasks := new TaskStruct[maxTasks](_ => blank);
      registeredTasks, currentTid, jiffy, mutex, filling, cpu := 0, 0, 0, 0, false, registers;
      new;
      SetTask(currentTid, tasks[currentTid].(state := TASK_RUNNING));
    }

    /** `tasks[i] = t`, as far as the machine state is concerned. */
    method SetTask(i: int, t: TaskStruct)
      requires WellFormed() && 0 <= i < tasks.Length && OneState(t.state)
      modifies tasks
      ensures WellFormed() && tasks[..] == old(tasks[..])[i := t]
      ensures Abs() == old(Abs()).(tasks := old(Abs()).tasks[i := TaskOf(t)])
    {
      TasksOfUpdate(tasks[..], i, t);
      tasks[i] := t;
    }

    method UpdateState()
      requires WellFormed() && Suspended(Abs())
      modifies tasks, this`mutex
      ensures WellFormed() && Abs() == Wake(old(Abs()))
    {
      hide WokenTo, OneState, PhaseOf;
      ReadyFlag();
      ghost var s := Abs();
      NoneWoken(s);
      for i := 1 to registeredTasks + 1
        invariant WellFormed() && tasks.Length == |s.tasks|
        invariant WokenTo(s, Abs(), i)
      {
        WakesInOrder(s, Abs(), i);
        ghost var now := Abs();
        FlagTests(tasks[i].state);
        if tasks[i].state & TASK_BLOCKED != 0 && jiffy > tasks[i].sleepUntil {
          SetTask(i, tasks[i].(state := TASK_READY));
        }
        FlagTests(tasks[i].state);
        if tasks[i].state & TASK_MUTEX_BLOCKED != 0 && mutex == 0 {
          SetTask(i, tasks[i].(state := TASK_READY));
          mutex := 1;
        }
        assert Abs() == WokenAt(now, i);
      }
      AllWoken(s, Abs());
    }

    /** The two scans of k_task_peek_next. */
    method ScanFromIdle() returns (next: int)
      requires WellFormed() && 0 < registeredTasks < tasks.Length
      ensures 0 <= next && IsPick(Abs().tasks, registeredTasks, 0, next)
    {
      next := 0;
      while true
        invariant 0 <= next <= registeredTasks
        invariant forall t :: 1 <= t <= next ==> TasksOf(tasks[..])[t].phase != Ready
        decreases registeredTasks - next
      {
        next := next + 1;
        if next > registeredTasks {
          return 0;
        }
        FlagTests(tasks[next].state);
        if tasks[next].state & TASK_READY != 0 {
          break;
        }
      }
      assert next in ReadyCandidates(TasksOf(tasks[..]), registeredTasks, 0);
    }

    method ScanFrom(ctid: int) returns (next: int)
      requires WellFormed() && 1 <= ctid <= registeredTasks < tasks.Length
      ensures 0 <= next && IsPick(Abs().tasks, registeredTasks, ctid, next)
    {
      next := ctid;
      while true
        invariant 1 <= next <= registeredTasks
        invariant forall t :: 1 <= t <= registeredTasks && t != ctid && next != ctid
                    && Distance(registeredTasks, ctid, t) <= Distance(registeredTasks, ctid, next)
                    ==> TasksOf(tasks[..])[t].phase != Ready
        decreases if next == ctid then registeredTasks else registeredTasks - Distance(registeredTasks, ctid, next)
      {
        next := next + 1;
        if next > registeredTasks {
          next := 1;
        }
        if next == ctid {
          return 0;
        }
        FlagTests(tasks[next].state);
        if tasks[next].state & TASK_READY != 0 {
          break;
        }
      }
      assert next in ReadyCandidates(TasksOf(tasks[..]), registeredTasks, ctid);
    }

    method PeekNext(ctid: int) returns (next: int)
      requires WellFormed() && Suspended(Abs()) && ctid == currentTid
      modifies tasks, this`mutex
      ensures WellFormed()
      ensures Abs() == if registeredTasks == 0 then old(Abs()) else Wake(old(Abs()))
      ensures 0 <= next <= registeredTasks < tasks.Length
      ensures next == if registeredTasks == 0 then 0 else Pick(Abs().tasks, registeredTasks, ctid)
      ensures var ready := tasks[..];
        registeredTasks > 0 ==>
          && (next > 0 ==> ready[next].state == 0x2 && next != ctid)
          && (ctid < next ==> forall t :: ctid < t < next ==> ready[t].state != 0x2)
          && (0 < next <= ctid ==>
                && (forall t :: ctid < t <= registeredTasks ==> ready[t].state != 0x2)
                && (forall t :: 1 <= t < next ==> ready[t].state != 0x2))
          && (next == 0 ==> forall t :: 1 <= t <= registeredTasks && t != ctid ==> ready[t].state != 0x2)
    {
      if registeredTasks == 0 {
        return 0;
      }
      UpdateState();
      if ctid == 0 {
        next := ScanFromIdle();
      } else {
        next := ScanFrom(ctid);
      }
      PickExistsOnce(Abs().tasks, registeredTasks, ctid);
      NextInOrder(Abs().tasks, registeredTasks, ctid, next);
      forall t | 0 <= t < tasks.Length
        ensures Abs().tasks[t].phase == Ready <==> tasks[..][t].state == 0x2
      {
        assert Abs().tasks[t] == TaskOf(tasks[..][t]);
      }
    }

    /** The end of every handler that gives up the processor. */
    method SwitchTask()
      requires WellFormed() && Suspended(Abs())
      modifies tasks, this`mutex, this`currentTid
      ensures Valid() && Abs() == Dispatch(old(Abs()))
    {
      ghost var s := Abs();
      currentTid := PeekNext(currentTid);
      DispatchTo(s, if registeredTasks == 0 then s else Wake(s), currentTid);
      SetTask(currentTid, tasks[currentTid].(state := TASK_RUNNING));
    }

    method Scheduler()
      requires Valid() && jiffy < LONG_MAX
      modifies tasks, this`mutex, this`currentTid, this`jiffy
      ensures Valid() && Abs() == Step(old(Abs()), Tick)
    {
      ghost var s := Abs();
      SetTask(currentTid, tasks[currentTid].(state := TASK_READY));
      jiffy := jiffy + 1;
      assert Abs() == GiveUp(s, Tick);
      SwitchTask();
    }

    method TaskSleep(stime: int)
      requires Valid() && Enabled(Abs(), Sleep(stime)) && LONG_MIN <= jiffy + stime <= LONG_MAX
      modifies tasks, this`mutex, this`currentTid
      ensures Valid() && Abs() == Step(old(Abs()), Sleep(stime))
    {
      ghost var s := Abs();
      SetTask(currentTid, tasks[currentTid].(state := TASK_BLOCKED));
      SetTask(currentTid, tasks[currentTid].(sleepUntil := jiffy + stime));
      assert Abs() == GiveUp(s, Sleep(stime));
      SwitchTask();
    }

    method TaskYield()
      requires Valid()
      modifies tasks, this`mutex, this`currentTid
      ensures Valid() && Abs() == Step(old(Abs()), Yield)
    {
      ghost var s := Abs();
      SetTask(currentTid, tasks[currentTid].(state := TASK_READY));
      assert Abs() == GiveUp(s, Yield);
      SwitchTask();
    }

    method MutexLock()
      requires Valid() && Enabled(Abs(), Lock)
      modifies tasks, this`mutex, this`currentTid
      ensures Valid() && Abs() == Step(old(Abs()), Lock)
    {
      if mutex == 0 {
        mutex := 1;
      } else {
        ghost var s := Abs();
        SetTask(currentTid, tasks[currentTid].(state := TASK_MUTEX_BLOCKED));
        assert Abs() == GiveUp(s, Lock);
        SwitchTask();
      }
    }

    method MutexUnlock()
      requires Valid()
      modifies this`mutex
      ensures Valid() && Abs() == Step(old(Abs()), Unlock)
    {
      mutex := 0;
    }

    /** The first half of task registration; the caller keeps `tid` and goes on
        to Publish unless this returns an error. */
    method FillSlot(sp: Word) returns (error: int)
      requires Valid() && Enabled(Abs(), Fill(sp))
      modifies tasks, this`filling
      ensures Valid() && Abs() == Step(old(Abs()), Fill(sp))
      ensures error == if filling then 0 else -1
    {
      var tid := registeredTasks + 1;
      if tid >= tasks.Length {
        return -1;
      }
      SetTask(tid, tasks[tid].(context := tasks[tid].context.(psp := sp)));
      SetTask(tid, tasks[tid].(state := TASK_READY));
      filling := true;
      return 0;
    }

    method PublishSlot()
      requires Valid() && Enabled(Abs(), Publish)
      modifies this`registeredTasks, this`filling
      ensures Valid() && Abs() == Step(old(Abs()), Publish)
    {
      registeredTasks := registeredTasks + 1;
      filling := false;
    }

    // ---- scheduler_s.s and the handlers -------------------------------------

    ghost function AbsMachine(): Machine
      reads this, tasks
      requires WellFormed()
    {
      Machine(Abs(), cpu)
    }

    method TaskSaveContext()
      requires WellFormed() && currentTid < tasks.Length
      modifies tasks
      ensures WellFormed() && Abs() == Saved(old(AbsMachine()))
    {
      SetTask(currentTid, tasks[currentTid].(context := cpu));
    }

    method TaskRestoreContext()
      requires WellFormed() && currentTid < tasks.Length
      modifies this`cpu
      ensures WellFormed() && AbsMachine() == Restored(Abs())
    {
      cpu := tasks[currentTid].context;
    }

    method SysTickHandler()
      requires Valid() && jiffy < LONG_MAX
      modifies tasks, this`mutex, this`currentTid, this`jiffy, this`cpu
      ensures Valid() && AbsMachine() == Next(old(AbsMachine()), Handler(Tick))
    {
      SavedInv(AbsMachine());
      TaskSaveContext();
      Scheduler();
      TaskRestoreContext();
    }

    /** SVC_C_Handler: `number` is the immediate of the SVC instruction, `r0`
        its argument. */
    method SvcCHandler(number: int, r0: Word)
      requires Valid()
      requires CallAllowed(Abs(), number, r0)
      modifies tasks, this`mutex, this`currentTid
      ensures Valid()
      ensures Abs() == match SvcEvent(number, r0)
                       case Some(e) => Step(old(Abs()), e)
                       case None => old(Abs())
      ensures number == 0 ==> Abs() == Step(old(Abs()), Yield)
      ensures number == 1 ==>
        exists t :: -0x8000_0000 <= t < 0x8000_0000 && (t == r0 || t == r0 - 0x1_0000_0000)
                    && Enabled(old(Abs()), Sleep(t)) && Abs() == Step(old(Abs()), Sleep(t))
      ensures number == 2 ==> Enabled(old(Abs()), Lock) && Abs() == Step(old(Abs()), Lock)
      ensures number == 3 ==> Abs() == Step(old(Abs()), Unlock)
      ensures number < 0 || number > 3 ==> Abs() == old(Abs())
    {
      Services(number, r0);
      if number == SVC_SLEEP {
        TaskSleep(AsLong(r0));
      } else if number == SVC_YIELD {
        TaskYield();
      } else if number == SVC_MUTEX_LOCK {
        MutexLock();
      } else if number == SVC_MUTEX_UNLOCK {
        MutexUnlock();
      }
    }

    method SvcHandler(number: int, r0: Word)
      requires Valid()
      requires CallAllowed(Abs(), number, r0)
      modifies tasks, this`mutex, this`currentTid, this`cpu
      ensures Valid()
      ensures AbsMachine() == match SvcEvent(number, r0)
                              case Some(e) => Next(old(AbsMachine()), Handler(e))
                              case None => Restored(Saved(old(AbsMachine())))
      ensures number == 0 ==> AbsMachine() == Next(old(AbsMachine()), Handler(Yield))
      ensures number == 1 ==>
        exists t :: -0x8000_0000 <= t < 0x8000_0000 && (t == r0 || t == r0 - 0x1_0000_0000)
                    && Possible(old(AbsMachine()), Handler(Sleep(t))) && AbsMachine() == Next(old(AbsMachine()), Handler(Sleep(t)))
      ensures number == 2 ==>
        Possible(old(AbsMachine()), Handler(Lock)) && AbsMachine() == Next(old(AbsMachine()), Handler(Lock))
      ensures number == 3 ==> AbsMachine() == Next(old(AbsMachine()), Handler(Unlock))
      ensures number < 0 || number > 3 ==> AbsMachine() == Restored(Saved(old(AbsMachine())))
    {
      Services(number, r0);
      hide Step, SvcEvent;
      ghost var m := AbsMachine();
      SavedInv(m);
      TaskSaveContext();
      assert Abs() == Saved(m);
      SvcCHandler(number, r0);
      TaskRestoreContext();
    }
  }
}
