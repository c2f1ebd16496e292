/** How long a task waits for the processor, how long it keeps it, and how long it sleeps. */
module TaskProgress {
  import opened Tasks
  import opened TaskSafety

  /** The task can run, or has slept long enough. */
  predicate Ready(s: State, j: nat)
    requires Shaped(s) && j < MAX_TASK_COUNT
  {
    s.tasks[j].state.Runnable? || (s.tasks[j].state.Sleeping? && s.timer >= s.tasks[j].sleepUntil)
  }

  /** The scheduler dispatches the task whose slot it looks at if and only if the task is ready, for
      ten ticks. */
  lemma DispatchedIffReady(s: State, j: nat)
    requires Inv(s) && s.phase == Scanning(j)
    ensures var s' := Step(s, Schedule).s;
      && (s'.phase == Running(j) <==> Ready(s, j))
      && (Ready(s, j) ==> s'.tasks[j].state.Runnable? && s'.tasks[j].deadline == s.timer + 10)
      && (!Ready(s, j) ==> s'.phase == Scanning((j + 1) % 65536) && s'.tasks == s.tasks)
  {
  }

  /** The slots to go from `i` to `j`, cyclically. */
  function Distance(i: nat, j: nat): nat
    requires i < MAX_TASK_COUNT && j < MAX_TASK_COUNT
  {
    if i <= j then j - i else j + MAX_TASK_COUNT - i
  }

  /** How many slots the scheduler has to look at before it looks at slot `j`. */
  function SlotsBefore(s: State, j: nat): nat
    requires Shaped(s) && j < MAX_TASK_COUNT
  {
    Distance(if s.phase.Scanning? then s.phase.slot else Advance(s.phase.slot), j)
  }

  /** Until it is dispatched a ready task stays ready, and each slot the scheduler looks at brings
      it one closer; when its own turn comes it is dispatched. */
  lemma ReadyStep(s: State, e: Event, j: nat)
    requires Inv(s) && Enabled(s, e) && Step(s, e).Next? && j < MAX_TASK_COUNT && Ready(s, j) && s.phase != Running(j)
    ensures Shaped(Step(s, e).s) && SlotsBefore(s, j) < MAX_TASK_COUNT
    ensures var s' := Step(s, e).s;
      if s.phase == Scanning(j) && e.Schedule? then s'.phase == Running(j)
      else
        && s'.phase != Running(j) && Ready(s', j)
        && SlotsBefore(s', j) == SlotsBefore(s, j) - if s.phase.Scanning? && e.Schedule? then 1 else 0
  {
    StepShaped(s, e);
    if e.Fork? { FreeSlot(s.tasks, 1); }
    assert SlotOk(s, s.phase.slot) && WaitOk(s, s.phase.slot) && SlotOk(s, j);
  }

  /** The events in which the scheduler looks at a slot, and those in which it dispatches a task. */
  function Looks(s: State, es: seq<Event>): nat
    requires Shaped(s) && Possible(s, es)
    decreases |es|
  {
    if es == [] then 0
    else (if s.phase.Scanning? && es[0].Schedule? then 1 else 0) + Looks(Step(s, es[0]).s, es[1..])
  }

  function Dispatches(s: State, es: seq<Event>): nat
    requires Shaped(s) && Possible(s, es)
    decreases |es|
  {
    if es == [] then 0
    else (if s.phase.Scanning? && Step(s, es[0]).s.phase.Running? then 1 else 0) + Dispatches(Step(s, es[0]).s, es[1..])
  }

  /** Task `j` does not get the processor in this run. */
  predicate NeverRuns(s: State, es: seq<Event>, j: nat)
    requires Shaped(s) && Possible(s, es)
    decreases |es|
  {
    s.phase != Running(j) && (es == [] || NeverRuns(Step(s, es[0]).s, es[1..], j))
  }

  /** Bounded waiting: a run in which a ready task is not dispatched has at most SlotsBefore - less
      than MAX_TASK_COUNT - looks at other slots and so at most as many dispatches; and the task is
      still ready, closer by as many slots as were looked at. */
  lemma {:induction false} BoundedWaiting(s: State, es: seq<Event>, j: nat)
    requires Inv(s) && Possible(s, es) && j < MAX_TASK_COUNT && Ready(s, j) && NeverRuns(s, es, j)
    ensures Ready(Run(s, es), j) && SlotsBefore(s, j) < MAX_TASK_COUNT
    ensures Dispatches(s, es) <= Looks(s, es) == SlotsBefore(s, j) - SlotsBefore(Run(s, es), j)
    decreases |es|
  {
    if es != [] {
      var s' := Step(s, es[0]).s;
      ReadyStep(s, es[0], j);
      StepKeeps(s, es[0]);
      assert NeverRuns(s', es[1..], j);
      BoundedWaiting(s', es[1..], j);
    }
  }

  // ---- The time a task keeps the processor

  /** Task `j` has the processor all through this run. */
  predicate KeepsRunning(s: State, es: seq<Event>, j: nat)
    requires Shaped(s) && Possible(s, es)
    decreases |es|
  {
    s.phase == Running(j) && (es == [] || KeepsRunning(Step(s, es[0]).s, es[1..], j))
  }

  /** The comparison of sched_timer_tick is the wrong way round: the first tick after a dispatch
      ends it, not the tick number PREEMPT_TICKS. */
  lemma {:induction false} QuantumIsOneTick(s: State, es: seq<Event>, j: nat)
    requires Inv(s) && Possible(s, es) && KeepsRunning(s, es, j)
    ensures Tick !in es && Run(s, es).timer == s.timer
    ensures Run(s, es).cont[j].User? ==>
      && Enabled(Run(s, es), Tick)
      && AfterTick(Run(s, es)).phase == Back(j) && AfterTick(Run(s, es)).tasks[j].state.Runnable?
    decreases |es|
  {
    if es != [] {
      StepKeeps(s, es[0]);
      assert es[0] != Tick;
      QuantumIsOneTick(Step(s, es[0]).s, es[1..], j);
      assert es == [es[0]] + es[1..];
    }
  }

  // ---- Sleep

  function Ticks(es: seq<Event>): nat {
    multiset(es)[Tick]
  }

  /** The timer counts the ticks. */
  lemma {:induction false} TimerCounts(s: State, es: seq<Event>)
    requires Shaped(s) && Possible(s, es)
    ensures Run(s, es).timer == s.timer + Ticks(es)
    decreases |es|
  {
    if es != [] {
      TimerCounts(Step(s, es[0]).s, es[1..]);
      assert es == [es[0]] + es[1..];
    }
  }

  /** sys_sleep: the caller sleeps for as many whole ticks of ten milliseconds as it asked for. */
  lemma SleepAsked(s: State, ms: nat)
    requires Inv(s) && Enabled(s, Sleep(ms))
    ensures Shaped(Step(s, Sleep(ms)).s)
    ensures var s', j := Step(s, Sleep(ms)).s, s.phase.slot;
      && s'.phase == Back(j) && s'.timer == s.timer && s'.tasks[j].state.Sleeping? && s'.cont[j].User?
      && 10 * (s'.tasks[j].sleepUntil - s.timer) <= ms < 10 * (s'.tasks[j].sleepUntil - s.timer) + 10
  {
  }

  /** A sleeping task stays as it is until the scheduler looks at it when its time has come. */
  lemma SleepStep(s: State, e: Event, j: nat)
    requires Inv(s) && Enabled(s, e) && Step(s, e).Next? && j < MAX_TASK_COUNT && s.tasks[j].state.Sleeping?
    ensures Shaped(Step(s, e).s)
    ensures var s' := Step(s, e).s;
      if s.phase == Scanning(j) && e.Schedule? && s.timer >= s.tasks[j].sleepUntil then s'.phase == Running(j)
      else s'.tasks[j] == s.tasks[j] && s'.phase != Running(j)
  {
    StepShaped(s, e);
    if e.Fork? { FreeSlot(s.tasks, 1); }
    assert SlotOk(s, s.phase.slot) && WaitOk(s, s.phase.slot);
  }

  /** In every run a sleeping task sleeps on as long as it is not dispatched, and it is not dispatched
      before its time has come. */
  lemma {:induction false} SleepsLongEnough(s: State, es: seq<Event>, j: nat)
    requires Inv(s) && Possible(s, es) && j < MAX_TASK_COUNT && s.tasks[j].state.Sleeping? && s.phase != Running(j)
    ensures s.timer + Ticks(es) < s.tasks[j].sleepUntil ==> NeverRuns(s, es, j)
    ensures NeverRuns(s, es, j) ==> Run(s, es).tasks[j] == s.tasks[j]
    decreases |es|
  {
    if es != [] {
      var s' := Step(s, es[0]).s;
      SleepStep(s, es[0], j);
      StepKeeps(s, es[0]);
      assert es == [es[0]] + es[1..];
      if s'.phase == Running(j) {
        assert !NeverRuns(s', es[1..], j);
      } else {
        SleepsLongEnough(s', es[1..], j);
      }
    }
  }

  /** A task that asks to sleep for `ms` milliseconds is not dispatched in any run of fewer than
      ms / 10 ticks; and when those have passed, in whatever run, the scheduler looks at fewer than
      65536 slots before it dispatches the task. */
  lemma SleepTime(s: State, ms: nat, sleep: seq<Event>, later: seq<Event>)
    requires Inv(s) && Enabled(s, Sleep(ms)) && Possible(Step(s, Sleep(ms)).s, sleep)
    requires Possible(Run(Step(s, Sleep(ms)).s, sleep), later)
    ensures var j, s', t := s.phase.slot, Step(s, Sleep(ms)).s, Run(Step(s, Sleep(ms)).s, sleep);
      && (Ticks(sleep) < ms / 10 ==> NeverRuns(s', sleep, j))
      && (Ticks(sleep) >= ms / 10 && NeverRuns(s', sleep, j) && NeverRuns(t, later, j) ==>
            Ready(t, j) && Dispatches(t, later) <= Looks(t, later) < 65536)
  {
    var j, s', t := s.phase.slot, Step(s, Sleep(ms)).s, Run(Step(s, Sleep(ms)).s, sleep);
    StepKeeps(s, Sleep(ms));
    SleepAsked(s, ms);
    SleepsLongEnough(s', sleep, j);
    RunKeeps(s', sleep);
    TimerCounts(s', sleep);
    if Ticks(sleep) >= ms / 10 && NeverRuns(s', sleep, j) && NeverRuns(t, later, j) {
      BoundedWaiting(t, later, j);
    }
  }

  // ---- The bound is met

  /** Some run of `n` ticks from here ends with the dispatch of task `j`. */
  ghost predicate CanBeDispatched(s: State, n: nat, j: nat)
    requires Shaped(s)
  {
    exists es: seq<Event> :: Possible(s, es) && Ticks(es) == n && Run(s, es).phase == Running(j)
  }

  lemma DispatchedAfter(s: State, e: Event, n: nat, j: nat)
    requires Shaped(s) && Enabled(s, e) && Step(s, e).Next? && Shaped(Step(s, e).s)
    requires CanBeDispatched(Step(s, e).s, n, j)
    ensures CanBeDispatched(s, if e.Tick? then n + 1 else n, j)
  {
    var es: seq<Event> :| Possible(Step(s, e).s, es) && Ticks(es) == n && Run(Step(s, e).s, es).phase == Running(j);
    var all := [e] + es;
    assert all[0] == e && all[1..] == es;
    assert Possible(s, all) && Run(s, all) == Run(Step(s, e).s, es);
  }

  /** The scheduler is between two tasks, and `j` is the only one. */
  ghost predicate Alone(s: State, j: nat)
    requires Shaped(s)
  {
    && j < MAX_TASK_COUNT && s.phase.Scanning?
    && forall i :: 0 <= i < MAX_TASK_COUNT && i != j ==> s.tasks[i].state.NotAllocated?
  }

  lemma {:induction false} LooksAround(s: State, j: nat)
    requires Shaped(s) && Alone(s, j) && Ready(s, j)
    ensures CanBeDispatched(s, 0, j)
    decreases SlotsBefore(s, j)
  {
    var s' := Step(s, Schedule).s;
    if s.phase.slot == j {
      var none: seq<Event> := [];
      assert Possible(s', none) && Ticks(none) == 0 && Run(s', none) == s';
    } else {
      LooksAround(s', j);
    }
    DispatchedAfter(s, Schedule, 0, j);
  }

  lemma {:induction false} WaitsFor(s: State, n: nat, j: nat)
    requires Shaped(s) && Alone(s, j) && s.tasks[j].state.Sleeping? && s.timer + n == s.tasks[j].sleepUntil
    ensures CanBeDispatched(s, n, j)
    decreases n
  {
    if n == 0 {
      LooksAround(s, j);
    } else {
      WaitsFor(Step(s, Tick).s, n - 1, j);
      DispatchedAfter(s, Tick, n - 1, j);
    }
  }

  /** The first task can sleep and be dispatched again after exactly ms / 10 ticks. */
  lemma SleepsAndReturns(timer: nat, ms: nat)
    ensures var s, es := Initial(timer), [Schedule, Schedule];
      Possible(s, es) && Run(s, es).timer == timer && Enabled(Run(s, es), Sleep(ms)) &&
      Shaped(Step(Run(s, es), Sleep(ms)).s) && CanBeDispatched(Step(Run(s, es), Sleep(ms)).s, ms / 10, 1)
  {
    var s, es := Initial(timer), [Schedule, Schedule];
    var s1 := Step(s, Schedule).s;
    var s2 := Step(s1, Schedule).s;
    assert es[1..] == [Schedule] && es[1..][1..] == [];
    assert Possible(s2, []) && Possible(s1, es[1..]) && Run(s1, es[1..]) == s2;
    var s3 := Step(s2, Sleep(ms)).s;
    WaitsFor(Step(s3, Schedule).s, ms / 10, 1);
    DispatchedAfter(s3, Schedule, ms / 10, 1);
  }
}
