/** The context switch: what a task finds in its registers when it runs again. */
module ContextSwitch {
  import opened Common
  import opened Kernel

  /** The kernel and the registers of the processor that it switches. */
  datatype Machine = Machine(kernel: State, cpu: Context)

  /** An exception handler runs, or the running thread changes its registers,
      or it takes one of the two steps of registering a task. */
  datatype MachineEvent = Handler(e: Event) | Compute(cpu: Context) | InThread(e: Event)

  predicate Possible(m: Machine, e: MachineEvent) {
    match e
    case Handler(k) => !k.Fill? && !k.Publish? && Enabled(m.kernel, k)
    case Compute(_) => true
    case InThread(k) => (k.Fill? || k.Publish?) && Enabled(m.kernel, k)
  }

  /** task_save_context */
  function Saved(m: Machine): State
    requires m.kernel.current < |m.kernel.tasks|
  {
    var t := m.kernel.current;
    m.kernel.(tasks := m.kernel.tasks[t := m.kernel.tasks[t].(context := m.cpu)])
  }

  /** task_restore_context */
  function Restored(k: State): Machine
    requires k.current < |k.tasks|
  {
    Machine(k, k.tasks[k.current].context)
  }

  ghost function Next(m: Machine, e: MachineEvent): (r: Machine)
    requires Inv(m.kernel) && Possible(m, e)
    ensures Inv(r.kernel)
  {
    match e
    case Handler(k) => Restored(Step(Saved(m), k))
    case Compute(cpu) => m.(cpu := cpu)
    case InThread(k) => m.(kernel := Step(m.kernel, k))
  }

  ghost predicate IsMachineRun(ms: seq<Machine>, es: seq<MachineEvent>) {
    && |ms| == |es| + 1
    && Inv(ms[0].kernel)
    && forall i :: 0 <= i < |es| ==> NextAt(ms, es, i)
  }

  ghost predicate NextAt(ms: seq<Machine>, es: seq<MachineEvent>, i: nat)
    requires i < |es| < |ms|
  {
    Inv(ms[i].kernel) ==>
      && Possible(ms[i], es[i])
      && ms[i + 1] == Next(ms[i], es[i])
  }

  lemma {:induction false} MachineInv(ms: seq<Machine>, es: seq<MachineEvent>, k: nat)
    requires IsMachineRun(ms, es) && k <= |es|
    ensures Inv(ms[k].kernel)
  {
    if 0 < k {
      MachineInv(ms, es, k - 1);
      assert NextAt(ms, es, k - 1);
    }
  }

  // ---- Isolation ----------------------------------------------------------

  /** No kernel step writes a saved context, except that filling a slot sets
      the stack pointer of that slot, which nobody uses yet. */
  lemma StepKeepsContexts(s: State, e: Event, t: nat)
    requires Inv(s) && Enabled(s, e) && t < |s.tasks|
    ensures Step(s, e).tasks[t].context ==
              if e.Fill? && t == s.registered + 1 then s.tasks[t].context.(psp := e.sp) else s.tasks[t].context
  {
    if IsDispatch(s, e) {
      DispatchedTask(s, e, t);
    }
  }

  /** The ideal machine: every task has registers of its own, and only the
      running task changes its own. Handlers do not change anything. */
  ghost function OwnAfter(m: Machine, e: MachineEvent, own: seq<Context>): seq<Context>
    requires Inv(m.kernel) && |own| == |m.kernel.tasks|
  {
    var slot := m.kernel.registered + 1;
    match e
    case Compute(cpu) => own[m.kernel.current := cpu]
    case InThread(Fill(sp)) => if slot < |own| then own[slot := own[slot].(psp := sp)] else own
    case _ => own
  }

  /** The one processor shows every task its own registers: the running task
      in the processor, the others in their task structures. */
  ghost predicate Shows(m: Machine, own: seq<Context>) {
    && m.kernel.current < |m.kernel.tasks| == |own|
    && m.cpu == own[m.kernel.current]
    && forall t :: 0 <= t < |own| && t != m.kernel.current ==> m.kernel.tasks[t].context == own[t]
  }

  lemma SavedInv(m: Machine)
    requires Inv(m.kernel)
    ensures Inv(Saved(m))
  {
  }

  lemma NextShows(m: Machine, e: MachineEvent, own: seq<Context>)
    requires Inv(m.kernel) && Possible(m, e) && Shows(m, own)
    ensures Shows(Next(m, e), OwnAfter(m, e, own))
  {
    match e
    case Handler(k) =>
      SavedInv(m);
      StepFrame(Saved(m), k);
      forall t: nat | t < |own| ensures Step(Saved(m), k).tasks[t].context == own[t] {
        StepKeepsContexts(Saved(m), k, t);
      }
    case Compute(_) =>
    case InThread(k) =>
      StepFrame(m.kernel, k);
      forall t: nat | t < |own| ensures t != m.kernel.current ==> Next(m, e).kernel.tasks[t].context == OwnAfter(m, e, own)[t] {
        StepKeepsContexts(m.kernel, k, t);
      }
  }

  /** Whole-run refinement: the machine with one processor behaves as the ideal
      one, from any state that shows the registers of its tasks. */
  lemma {:induction false} MachineRefinesIdeal(ms: seq<Machine>, es: seq<MachineEvent>, own: seq<Context>, i: nat, k: nat)
    returns (owns: seq<seq<Context>>)
    requires IsMachineRun(ms, es) && i <= k <= |es|
    requires Shows(ms[i], own)
    ensures |owns| == k - i + 1 && owns[0] == own
    ensures forall j :: i <= j <= k ==> Shows(ms[j], owns[j - i])
    ensures forall j :: i <= j < k ==> Inv(ms[j].kernel) && |owns[j - i]| == |ms[j].kernel.tasks|
                                       && owns[j - i + 1] == OwnAfter(ms[j], es[j], owns[j - i])
    decreases k
  {
    hide Next, OwnAfter, Inv;
    if i == k {
      owns := [own];
    } else {
      owns := MachineRefinesIdeal(ms, es, own, i, k - 1);
      MachineInv(ms, es, k - 1);
      assert NextAt(ms, es, k - 1);
      NextShows(ms[k - 1], es[k - 1], owns[k - 1 - i]);
      owns := owns + [OwnAfter(ms[k - 1], es[k - 1], owns[k - 1 - i])];
    }
  }

  /** Slot t holds a task, published or still being registered. */
  predicate InUse(s: State, t: nat) {
    t < |s.tasks| && (t <= s.registered || (t == s.registered + 1 && s.filling))
  }

  /** What task t will find in the registers. */
  function Kept(m: Machine, t: nat): Context
    requires t < |m.kernel.tasks|
  {
    if t == m.kernel.current then m.cpu else m.kernel.tasks[t].context
  }

  lemma NotRunningKeeps(m: Machine, e: MachineEvent, t: nat)
    requires Inv(m.kernel) && Possible(m, e)
    requires InUse(m.kernel, t) && (m.kernel.current == t ==> e.Handler?)
    ensures InUse(Next(m, e).kernel, t) && Kept(Next(m, e), t) == Kept(m, t)
  {
    if e.Handler? {
      SavedInv(m);
      StepFrame(Saved(m), e.e);
      StepKeepsContexts(Saved(m), e.e, t);
    } else if e.InThread? {
      StepFrame(m.kernel, e.e);
      StepKeepsContexts(m.kernel, e.e, t);
    }
  }

  lemma {:induction false} KeptWhileNotRunning(ms: seq<Machine>, es: seq<MachineEvent>, i: nat, k: nat, t: nat)
    requires IsMachineRun(ms, es) && i <= k <= |es|
    requires InUse(ms[i].kernel, t)
    requires forall j :: i <= j < k ==> ms[j].kernel.current != t || es[j].Handler?
    ensures InUse(ms[k].kernel, t) && Kept(ms[k], t) == Kept(ms[i], t)
    decreases k
  {
    if i < k {
      KeptWhileNotRunning(ms, es, i, k - 1, t);
      MachineInv(ms, es, k - 1);
      assert NextAt(ms, es, k - 1);
      NotRunningKeeps(ms[k - 1], es[k - 1], t);
    }
  }

  /** A task that was switched out by the handler at i and runs again at k
      finds exactly the registers it had when the handler was entered. */
  lemma ResumesWithItsRegisters(ms: seq<Machine>, es: seq<MachineEvent>, i: nat, k: nat)
    requires IsMachineRun(ms, es) && i < k <= |es|
    requires es[i].Handler?
    requires forall j :: i < j < k ==> ms[j].kernel.current != ms[i].kernel.current
    requires ms[k].kernel.current == ms[i].kernel.current
    ensures ms[k].cpu == ms[i].cpu
  {
    MachineInv(ms, es, i);
    assert NextAt(ms, es, i);
    KeptWhileNotRunning(ms, es, i, k, ms[i].kernel.current);
  }

  /** A new task starts with the stack pointer it was registered with, and the
      r4 to r7 that were in its slot. */
  lemma StartsWithItsRegistration(ms: seq<Machine>, es: seq<MachineEvent>, i: nat, k: nat, sp: Word)
    requires IsMachineRun(ms, es) && i < k <= |es|
    requires es[i] == InThread(Fill(sp)) && ms[i].kernel.registered + 1 < |ms[i].kernel.tasks|
    requires forall j :: i < j < k ==> ms[j].kernel.current != ms[i].kernel.registered + 1
    requires ms[k].kernel.current == ms[i].kernel.registered + 1
    ensures ms[k].cpu == ms[i].kernel.tasks[ms[i].kernel.registered + 1].context.(psp := sp)
  {
    MachineInv(ms, es, i);
    assert NextAt(ms, es, i);
    StepKeepsContexts(ms[i].kernel, Fill(sp), ms[i].kernel.registered + 1);
    KeptWhileNotRunning(ms, es, i + 1, k, ms[i].kernel.registered + 1);
  }
}
