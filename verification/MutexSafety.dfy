/** The mutex: who holds it, over every run. */
module MutexSafety {
  import opened Common
  import opened Kernel

  /** The tasks that hold the mutex, as the tasks see it: a task holds it from
      the moment its call to lock returns, at once or by ceasing to wait,
      until it calls unlock. The lock variable plays no part in this. */
  ghost function HoldersAfter(s: State, e: Event, holders: set<nat>): set<nat>
    requires Inv(s) && Enabled(s, e)
  {
    var r := Step(s, e);
    var released := if e.Unlock? then {s.current} else {};
    var atOnce := if e.Lock? && r.tasks[s.current].phase != MutexBlocked then {s.current} else {};
    holders - released + atOnce + CeaseToWait(s.tasks, r.tasks)
  }

  function CeaseToWait(before: seq<Task>, after: seq<Task>): set<nat>
    requires |before| == |after|
  {
    set t: nat | t < |before| && before[t].phase == MutexBlocked && after[t].phase != MutexBlocked
  }

  /** At most one task holds the mutex, it does not wait for it, and the lock
      variable says whether there is one. */
  ghost predicate Exclusive(s: State, holders: set<nat>) {
    && (forall t, u :: t in holders && u in holders ==> t == u)
    && (forall t :: t in holders ==> IsRegistered(s, t) && !Waits(s, t))
    && (s.locked <==> holders != {})
  }

  /** Who holds the mutex does not lock it again; while somebody holds it,
      nobody else unlocks it. */
  predicate Disciplined(s: State, holders: set<nat>, e: Event) {
    && (e.Lock? ==> s.current !in holders)
    && (e.Unlock? && s.locked ==> s.current in holders)
  }

  /** Giving up the processor is no step of anybody who waits. */
  lemma GiveUpWaits(s: State, e: Event)
    requires Inv(s) && Enabled(s, e) && IsDispatch(s, e)
    ensures forall t :: Waits(GiveUp(s, e), t) <==> Waits(s, t) || (e.Lock? && t == s.current)
    ensures forall t :: Granted(GiveUp(s, e), t) <==> Granted(s, t)
  {
    var g := GiveUp(s, e);
    forall t ensures Waits(g, t) <==> Waits(s, t) || (e.Lock? && t == s.current) {
    }
  }

  /** Only the task that is granted the mutex ceases to wait, and only the one
      that calls lock begins to. */
  lemma WhoWaits(s: State, e: Event, t: nat)
    requires Inv(s) && Enabled(s, e) && IsDispatch(s, e) && t < |s.tasks|
    ensures s.tasks[t].phase == MutexBlocked && Step(s, e).tasks[t].phase != MutexBlocked <==> Granted(s, t)
    ensures s.tasks[t].phase != MutexBlocked && Step(s, e).tasks[t].phase == MutexBlocked <==> e.Lock? && t == s.current
  {
    GiveUpWaits(s, e);
    DispatchedTask(s, e, t);
  }

  lemma LockedAfter(s: State, e: Event)
    requires Inv(s) && Enabled(s, e) && IsDispatch(s, e)
    ensures Step(s, e).locked <==> s.locked || exists t :: Waits(s, t)
  {
    GiveUpWaits(s, e);
    DispatchedTask(s, e, s.current);
  }

  /** A dispatch with the mutex free hands it to the waiter with the least
      index, and takes it from nobody. */
  lemma HandOff(s: State, e: Event, holders: set<nat>, t: nat)
    requires Inv(s) && Enabled(s, e) && IsDispatch(s, e)
    requires !s.locked && Waits(s, t) && forall u :: 1 <= u < t ==> !Waits(s, u)
    ensures HoldersAfter(s, e, holders) == holders + {t}
    ensures Step(s, e).locked
    ensures Step(s, e).tasks[t].phase in {Ready, Running}
  {
    hide Step;
    StepFrame(s, e);
    var r := Step(s, e);
    forall u: nat | u < |s.tasks|
      ensures u in CeaseToWait(s.tasks, r.tasks) <==> u == t
    {
      WhoWaits(s, e, u);
    }
    assert CeaseToWait(s.tasks, r.tasks) == {t};
    LockedAfter(s, e);
    assert r.tasks[t].phase in {Ready, Running} by {
      GiveUpWaits(s, e);
      DispatchedTask(s, e, t);
    }
  }

  /** A dispatch grants nothing when the mutex is taken or nobody waits. */
  lemma NoHandOff(s: State, e: Event, holders: set<nat>)
    requires Inv(s) && Enabled(s, e) && IsDispatch(s, e)
    requires s.locked || forall t :: !Waits(s, t)
    ensures HoldersAfter(s, e, holders) == holders
    ensures Step(s, e).locked == s.locked
    ensures forall t :: Waits(Step(s, e), t) <==> Waits(s, t) || (e.Lock? && t == s.current)
  {
    hide Step;
    StepFrame(s, e);
    forall t: nat | t < |s.tasks|
      ensures Step(s, e).tasks[t].phase == MutexBlocked <==> s.tasks[t].phase == MutexBlocked || (e.Lock? && t == s.current)
    {
      WhoWaits(s, e, t);
    }
    LockedAfter(s, e);
  }

  lemma QuietStep(s: State, e: Event, holders: set<nat>)
    requires Inv(s) && Enabled(s, e) && !IsDispatch(s, e)
    ensures HoldersAfter(s, e, holders) ==
              if e.Lock? then holders + {s.current} else if e.Unlock? then holders - {s.current} else holders
    ensures Step(s, e).locked == if e.Lock? then true else if e.Unlock? then false else s.locked
    ensures forall t :: Waits(Step(s, e), t) <==> Waits(s, t)
  {
  }

  lemma {:induction false} FirstWaiter(s: State, t: nat) returns (first: nat)
    requires Waits(s, t)
    ensures first <= t && Waits(s, first) && forall j :: 1 <= j < first ==> !Waits(s, j)
  {
    if j :| 1 <= j < t && Waits(s, j) {
      first := FirstWaiter(s, j);
    } else {
      first := t;
    }
  }

  /** One step keeps mutual exclusion exactly when the client respects the
      discipline. */
  lemma ExclusionStep(s: State, e: Event, holders: set<nat>)
    requires Inv(s) && Enabled(s, e) && Exclusive(s, holders)
    ensures Exclusive(Step(s, e), HoldersAfter(s, e, holders)) <==> Disciplined(s, holders, e)
  {
    hide Step, HoldersAfter;
    if IsDispatch(s, e) {
      if t :| !s.locked && Waits(s, t) {
        var first := FirstWaiter(s, t);
        HandOff(s, e, holders, first);
      } else {
        NoHandOff(s, e, holders);
      }
    } else {
      QuietStep(s, e, holders);
    }
    StepFrame(s, e);
  }

  /** A run and its holders, with a client that respects the discipline. */
  ghost predicate IsDisciplined(states: seq<State>, events: seq<Event>, holders: seq<set<nat>>) {
    && IsRun(states, events)
    && |holders| == |states|
    && forall i :: 0 <= i < |events| ==> DisciplinedAt(states, events, holders, i)
  }

  ghost predicate DisciplinedAt(states: seq<State>, events: seq<Event>, holders: seq<set<nat>>, i: nat)
    requires i < |events| < |states| == |holders|
  {
    Inv(states[i]) && Enabled(states[i], events[i]) ==>
      && Disciplined(states[i], holders[i], events[i])
      && holders[i + 1] == HoldersAfter(states[i], events[i], holders[i])
  }

  /** Nobody holds the mutex or waits for it. */
  ghost predicate AllFree(s: State, holders: set<nat>) {
    holders == {} && !s.locked && forall t :: !Waits(s, t)
  }

  ghost predicate IsDisciplinedRun(states: seq<State>, events: seq<Event>, holders: seq<set<nat>>) {
    IsDisciplined(states, events, holders) && AllFree(states[0], holders[0])
  }

  lemma CountHolders(s: State, holders: set<nat>)
    requires Exclusive(s, holders)
    ensures |holders| == if s.locked then 1 else 0
  {
    if t :| t in holders {
      assert holders == {t};
    }
  }

  /** Mutual exclusion in every state of every disciplined run. */
  lemma {:induction false} MutualExclusion(states: seq<State>, events: seq<Event>, holders: seq<set<nat>>, k: nat)
    requires IsDisciplinedRun(states, events, holders) && k < |states|
    ensures Exclusive(states[k], holders[k])
  {
    if 0 < k {
      MutualExclusion(states, events, holders, k - 1);
      RunInv(states, events, k - 1, k);
      assert StepAt(states, events, k - 1) && DisciplinedAt(states, events, holders, k - 1);
      ExclusionStep(states[k - 1], events[k - 1], holders[k - 1]);
    }
  }

  // ---- Progress -----------------------------------------------------------

  /** Nobody sleeps past its deadline and nobody waits for a free mutex. */
  ghost predicate NobodyForgotten(s: State) {
    && (forall t :: !Expired(s, t))
    && (!s.locked ==> forall t :: !Waits(s, t))
  }

  /** No wake-up is lost: whatever happened before, a dispatch leaves nobody
      behind. */
  lemma DispatchForgetsNobody(s: State, e: Event)
    requires Inv(s) && Enabled(s, e) && IsDispatch(s, e) && s.registered >= 1
    ensures NobodyForgotten(Step(s, e))
  {
    var g := GiveUp(s, e);
    var r := Step(s, e);
    forall t: nat | t < |s.tasks|
      ensures !Expired(r, t)
      ensures Waits(r, t) ==> r.locked
    {
      DispatchedTask(s, e, t);
    }
  }

  /** The mutex was freed before state k, and no task has been chosen since. */
  ghost predicate JustFreed(states: seq<State>, events: seq<Event>, k: nat)
    requires k <= |events| < |states|
  {
    exists i :: 0 <= i < k && events[i].Unlock? && forall j :: i < j < k ==> !IsDispatch(states[j], events[j])
  }

  /** Whenever a task waits for a taken mutex, another one that does not wait
      holds it; when it waits for a free one, this has just been freed. */
  lemma {:induction false} WaitingHasAReason(states: seq<State>, events: seq<Event>, holders: seq<set<nat>>, k: nat, t: nat)
    requires IsDisciplinedRun(states, events, holders) && k <= |events|
    requires Waits(states[k], t)
    ensures if states[k].locked then exists h :: h in holders[k] && h != t && !Waits(states[k], h)
            else JustFreed(states, events, k)
  {
    MutualExclusion(states, events, holders, k);
    if states[k].locked {
      var h :| h in holders[k];
    } else if 0 < k {
      var s, e := states[k - 1], events[k - 1];
      RunInv(states, events, k - 1, k);
      assert StepAt(states, events, k - 1) && DisciplinedAt(states, events, holders, k - 1);
      if IsDispatch(s, e) {
        assert IsRegistered(s, t) && s.registered >= 1;
        DispatchForgetsNobody(s, e);
      } else if !e.Unlock? {
        assert Waits(s, t) && !s.locked;
        WaitingHasAReason(states, events, holders, k - 1, t);
        MutualExclusion(states, events, holders, k - 1);
      }
    }
  }

  /** A free mutex with waiters is granted by the very next dispatch. */
  lemma NextDispatchGrants(s: State, e: Event, holders: set<nat>, t: nat)
    requires Inv(s) && Enabled(s, e) && IsDispatch(s, e)
    requires Exclusive(s, holders) && !s.locked && Waits(s, t)
    ensures exists first :: Waits(s, first) && (forall u :: Waits(s, u) ==> first <= u)
                            && HoldersAfter(s, e, holders) == {first}
  {
    var first := FirstWaiter(s, t);
    HandOff(s, e, holders, first);
  }

  // ---- How long a task waits ----------------------------------------------

  /** Event i is a dispatch that finds the mutex free and t the first waiter. */
  ghost predicate GrantedAt(states: seq<State>, events: seq<Event>, i: nat, t: nat)
    requires i < |events| < |states|
  {
    IsDispatch(states[i], events[i]) && Granted(states[i], t)
  }

  /** Exactly when a task stops waiting, in every run, disciplined or not: it
      waits as long as no dispatch finds the mutex free and nobody with a
      smaller index waiting. */
  lemma {:induction false} WaitsUntilGranted(states: seq<State>, events: seq<Event>, i: nat, k: nat, t: nat)
    requires IsRun(states, events) && i <= k <= |events|
    requires Waits(states[i], t)
    ensures (forall j :: i <= j <= k ==> Waits(states[j], t)) <==> forall j :: i <= j < k ==> !GrantedAt(states, events, j, t)
    decreases k
  {
    if i < k {
      WaitsUntilGranted(states, events, i, k - 1, t);
      if Waits(states[k - 1], t) {
        RunInv(states, events, k - 1, k);
        assert StepAt(states, events, k - 1);
        WaitsOnIff(states[k - 1], events[k - 1], t);
        assert Waits(states[k], t) <==> !GrantedAt(states, events, k - 1, t);
      }
    }
  }

  lemma WaitsOnIff(s: State, e: Event, t: nat)
    requires Inv(s) && Enabled(s, e) && Waits(s, t)
    ensures Waits(Step(s, e), t) <==> !(IsDispatch(s, e) && Granted(s, t))
  {
    StepFrame(s, e);
    if IsDispatch(s, e) {
      WhoWaits(s, e, t);
    } else {
      QuietStep(s, e, {});
    }
  }

  // ---- No fairness --------------------------------------------------------

  const ROUND: seq<Event> := [Lock, Tick, Tick, Unlock]

  /** Tasks 1 and 2 are registered, and nobody sleeps. */
  ghost predicate Two(s: State, current: nat, locked: bool, one: Phase, two: Phase) {
    && Inv(s) && s.registered == 2 && !s.filling
    && s.current == current && s.locked == locked && s.tasks[1].phase == one && s.tasks[2].phase == two
    && one != Blocked && two != Blocked
  }

  /** Task 1 runs, task 2 waits, and task 1 has just freed the mutex. */
  ghost predicate Contended(s: State) {
    Two(s, 1, false, Running, MutexBlocked)
  }

  /** A step of a disciplined client, with the holders before and after. */
  ghost predicate Goes(s: State, e: Event, held: set<nat>, s': State, held': set<nat>) {
    && Inv(s) && Enabled(s, e) && Disciplined(s, held, e)
    && s' == Step(s, e) && held' == HoldersAfter(s, e, held)
  }

  lemma RunOf(states: seq<State>, events: seq<Event>, holders: seq<set<nat>>)
    requires |states| == |holders| == |events| + 1 && Inv(states[0])
    requires forall i {:trigger events[i]} :: 0 <= i < |events| ==> Goes(states[i], events[i], holders[i], states[i + 1], holders[i + 1])
    ensures IsDisciplined(states, events, holders)
  {
    forall i | 0 <= i < |events| ensures StepAt(states, events, i) && DisciplinedAt(states, events, holders, i) {
      assert Goes(states[i], events[i], holders[i], states[i + 1], holders[i + 1]);
    }
  }

  /** What becomes of the phase p of task i when `current` gives up the
      processor. */
  function Left(e: Event, current: nat, i: nat, p: Phase): Phase {
    if current != i then p else if e.Lock? then MutexBlocked else Ready
  }

  lemma PickOfTwo(tasks: seq<Task>, from: nat, next: nat)
    requires from <= 2 < |tasks|
    requires next == if tasks[1].phase == Ready && from != 1 then 1 else if tasks[2].phase == Ready && from != 2 then 2 else 0
    ensures Pick(tasks, 2, from) == next
  {
    var ready := ReadyCandidates(tasks, 2, from);
    assert 1 in ready <==> tasks[1].phase == Ready && from != 1;
    assert 2 in ready <==> tasks[2].phase == Ready && from != 2;
  }

  /** A tick, or a lock of a taken mutex, with two tasks of which none is granted
      the mutex. */
  lemma DispatchOfTwo(s: State, e: Event, current: nat, locked: bool, p1: Phase, p2: Phase, next: nat, held: set<nat>)
    returns (s': State)
    requires Two(s, current, locked, p1, p2) && Disciplined(s, held, e)
    requires e.Tick? || (e.Lock? && locked && current != 0)
    requires locked || (p1 != MutexBlocked && p2 != MutexBlocked)
    requires var one, two := Left(e, current, 1, p1), Left(e, current, 2, p2);
      next == if one == Ready && current != 1 then 1 else if two == Ready && current != 2 then 2 else 0
    ensures Goes(s, e, held, s', held)
    ensures Two(s', next, locked, if next == 1 then Running else Left(e, current, 1, p1),
                if next == 2 then Running else Left(e, current, 2, p2))
  {
    s' := Step(s, e);
    var g := GiveUp(s, e);
    var w := Wake(g);
    assert forall t :: 1 <= t <= 2 ==> w.tasks[t] == g.tasks[t];
    PickOfTwo(w.tasks, current, next);
    DispatchedTask(s, e, 1);
    DispatchedTask(s, e, 2);
    NoHandOff(s, e, held);
  }

  lemma LockOfOne(s: State, p2: Phase) returns (s': State)
    requires Two(s, 1, false, Running, p2)
    ensures Goes(s, Lock, {}, s', {1}) && Two(s', 1, true, Running, p2)
  {
    s' := Step(s, Lock);
    QuietStep(s, Lock, {});
  }

  lemma UnlockOfOne(s: State, p2: Phase) returns (s': State)
    requires Two(s, 1, true, Running, p2)
    ensures Goes(s, Unlock, {1}, s', {}) && Two(s', 1, false, Running, p2)
  {
    s' := Step(s, Unlock);
    QuietStep(s, Unlock, {1});
  }

  /** Two tasks are registered and run; the second asks for the mutex while the
      first one holds it, and the first one frees it. */
  function Contention(sp1: Word, sp2: Word): seq<Event> {
    [Fill(sp1), Publish, Fill(sp2), Publish, Tick, Lock, Tick, Lock, Unlock]
  }

  lemma Registered(blank: seq<Task>, sp1: Word, sp2: Word) returns (states: seq<State>)
    requires |blank| > 2 && forall i :: 0 <= i < |blank| ==> blank[i].phase == Unused
    ensures |states| == 5 && states[0] == Init(blank) && Two(states[4], 0, false, Ready, Ready)
    ensures IsDisciplinedRun(states, Contention(sp1, sp2)[..4], [{}, {}, {}, {}, {}])
  {
    InitInv(blank);
    var s0 := Init(blank);
    var s1, s2 := RegisteredOne(s0, sp1);
    var s3, s4 := RegisteredOne(s2, sp2);
    states := [s0, s1, s2, s3, s4];
    RunOf(states, [Fill(sp1), Publish, Fill(sp2), Publish], [{}, {}, {}, {}, {}]);
  }

  lemma RegisteredOne(s: State, sp: Word) returns (s1: State, s2: State)
    requires Inv(s) && s.registered + 1 < |s.tasks| && !s.filling
    ensures Goes(s, Fill(sp), {}, s1, {}) && Goes(s1, Publish, {}, s2, {})
    ensures s2 == s.(tasks := s.tasks[s.registered + 1 := s2.tasks[s.registered + 1]], registered := s.registered + 1)
    ensures s2.tasks[s.registered + 1].phase == Ready
  {
    s1 := Step(s, Fill(sp));
    s2 := Step(s1, Publish);
    QuietStep(s, Fill(sp), {});
    QuietStep(s1, Publish, {});
  }

  lemma Contends(s: State) returns (states: seq<State>)
    requires Two(s, 0, false, Ready, Ready)
    ensures |states| == 6 && states[0] == s && Contended(states[5])
    ensures IsDisciplined(states, [Tick, Lock, Tick, Lock, Unlock], [{}, {}, {1}, {1}, {1}, {}])
  {
    hide Goes;
    var s1 := DispatchOfTwo(s, Tick, 0, false, Ready, Ready, 1, {});
    var s2 := LockOfOne(s1, Ready);
    var s3 := DispatchOfTwo(s2, Tick, 1, true, Running, Ready, 2, {1});
    var s4 := DispatchOfTwo(s3, Lock, 2, true, Ready, Running, 1, {1});
    var s5 := UnlockOfOne(s4, MutexBlocked);
    states := [s, s1, s2, s3, s4, s5];
    RunOf(states, [Tick, Lock, Tick, Lock, Unlock], [{}, {}, {1}, {1}, {1}, {}]);
  }

  /** A state in which the mutex is contended is reached from the initial one. */
  lemma ContentionArises(blank: seq<Task>, sp1: Word, sp2: Word) returns (states: seq<State>, holders: seq<set<nat>>)
    requires |blank| > 2 && forall i :: 0 <= i < |blank| ==> blank[i].phase == Unused
    ensures IsDisciplinedRun(states, Contention(sp1, sp2), holders)
    ensures states[0] == Init(blank) && Contended(states[9]) && holders[9] == {}
  {
    var first := Registered(blank, sp1, sp2);
    var second := Contends(first[4]);
    var past, next := Contention(sp1, sp2)[..4], [Tick, Lock, Tick, Lock, Unlock];
    var had: seq<set<nat>>, have: seq<set<nat>> := [{}, {}, {}, {}, {}], [{}, {}, {1}, {1}, {1}, {}];
    Append(first, past, had, second, next, have);
    states, holders := first + second[1..], had + have[1..];
    assert past + next == Contention(sp1, sp2);
  }

  lemma Append(before: seq<State>, past: seq<Event>, had: seq<set<nat>>, after: seq<State>, next: seq<Event>, have: seq<set<nat>>)
    requires IsDisciplined(before, past, had) && IsDisciplined(after, next, have)
    requires before[|past|] == after[0] && had[|past|] == have[0]
    ensures IsDisciplined(before + after[1..], past + next, had + have[1..])
  {
    hide Step, Inv, HoldersAfter, Disciplined, Enabled;
    var states, events, holders := before + after[1..], past + next, had + have[1..];
    forall i | 0 <= i < |events| ensures StepAt(states, events, i) && DisciplinedAt(states, events, holders, i) {
      if i < |past| {
        assert StepAt(before, past, i) && DisciplinedAt(before, past, had, i);
      } else {
        assert StepAt(after, next, i - |past|) && DisciplinedAt(after, next, have, i - |past|);
      }
    }
  }

  /** Task 1 takes the mutex, is preempted, comes back and frees it. */
  lemma Round(s: State) returns (states: seq<State>, holders: seq<set<nat>>)
    requires Contended(s)
    ensures |states| == 5 && states[0] == s && holders == [{}, {1}, {1}, {1}, {}]
    ensures IsDisciplined(states, ROUND, holders)
    ensures Contended(states[4]) && forall k :: 0 <= k < 5 ==> Waits(states[k], 2)
  {
    hide Goes;
    var s1 := LockOfOne(s, MutexBlocked);
    var s2 := DispatchOfTwo(s1, Tick, 1, true, Running, MutexBlocked, 0, {1});
    var s3 := DispatchOfTwo(s2, Tick, 0, true, Ready, MutexBlocked, 1, {1});
    var s4 := UnlockOfOne(s3, MutexBlocked);
    states, holders := [s, s1, s2, s3, s4], [{}, {1}, {1}, {1}, {}];
    RunOf(states, ROUND, holders);
  }

  /** Round r of a run that begins with Contention: task 1 takes the mutex, and
      events and holders are those of a round. */
  ghost predicate RoundAt(states: seq<State>, events: seq<Event>, holders: seq<set<nat>>, r: nat)
    requires 9 + 4 * r + 4 <= |events| < |states| == |holders|
  {
    var i := 9 + 4 * r;
    && states[i].current == 1 && !states[i].locked
    && events[i .. i + 4] == ROUND
    && holders[i .. i + 5] == [{}, {1}, {1}, {1}, {}]
  }

  /** The mutex is not starvation free: for every m there is a disciplined run
      from the initial state in which task 1 takes the mutex m times, with two
      dispatches in between each time, while task 2 waits all the time. */
  lemma {:induction false} WaiterMayStarve(blank: seq<Task>, sp1: Word, sp2: Word, m: nat)
    returns (states: seq<State>, events: seq<Event>, holders: seq<set<nat>>)
    requires |blank| > 2 && forall i :: 0 <= i < |blank| ==> blank[i].phase == Unused
    ensures IsDisciplinedRun(states, events, holders) && states[0] == Init(blank)
    ensures |events| == 9 + 4 * m && events[..9] == Contention(sp1, sp2)
    ensures Contended(states[9 + 4 * m]) && holders[9 + 4 * m] == {}
    ensures forall r :: 0 <= r < m ==> RoundAt(states, events, holders, r)
    ensures forall k :: 9 <= k < |states| ==> Waits(states[k], 2)
  {
    if m == 0 {
      states, holders := ContentionArises(blank, sp1, sp2);
      events := Contention(sp1, sp2);
    } else {
      var before, past, had := WaiterMayStarve(blank, sp1, sp2, m - 1);
      var after, have := Round(before[9 + 4 * (m - 1)]);
      Append(before, past, had, after, ROUND, have);
      states, events, holders := before + after[1..], past + ROUND, had + have[1..];
      forall r | 0 <= r < m ensures RoundAt(states, events, holders, r) {
        RoundKept(before, past, had, after, have, r, m - 1);
      }
    }
  }

  lemma RoundKept(before: seq<State>, past: seq<Event>, had: seq<set<nat>>, after: seq<State>, have: seq<set<nat>>, r: nat, m: nat)
    requires |before| == |had| == |past| + 1 == 9 + 4 * m + 1 && r <= m
    requires |after| == 5 && have == [{}, {1}, {1}, {1}, {}]
    requires Contended(before[9 + 4 * m]) && had[9 + 4 * m] == {}
    requires r < m ==> RoundAt(before, past, had, r)
    ensures RoundAt(before + after[1..], past + ROUND, had + have[1..], r)
  {
    var i := 9 + 4 * r;
    var events, holders := past + ROUND, had + have[1..];
    if r < m {
      assert events[i .. i + 4] == past[i .. i + 4] && holders[i .. i + 5] == had[i .. i + 5];
    } else {
      assert events[i .. i + 4] == ROUND && holders[i .. i + 5] == have;
    }
  }
}
